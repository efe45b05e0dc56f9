/** utils/merkle.go: the Merkle root, and what it commits to. */
module Merkle {
  import opened Bytes
  import opened Transactions

  /** An odd level repeats its last hash. */
  function Padded(level: seq<bytes>): (r: seq<bytes>)
    ensures |r| % 2 == 0 && |level| <= |r| <= |level| + 1
  {
    if |level| % 2 == 1 then level + [level[|level| - 1]] else level
  }

  /** Pair i of a level, as one string. */
  function Pair(level: seq<bytes>, i: nat): bytes
    requires 2 * i + 1 < |Padded(level)|
  {
    Padded(level)[2 * i] + Padded(level)[2 * i + 1]
  }

  function NextLevel(h: Hash, level: seq<bytes>): (r: seq<bytes>)
    ensures |r| == (|level| + 1) / 2
    ensures forall i :: 0 <= i < |r| ==> r[i] == DoubleHash(h, Pair(level, i)) && |r[i]| == 32
  {
    seq((|level| + 1) / 2, i requires 0 <= i < (|level| + 1) / 2 => DoubleHash(h, Pair(level, i)))
  }

  function Root(h: Hash, level: seq<bytes>): bytes
    requires |level| > 0
    decreases |level|
  {
    if |level| == 1 then level[0] else Root(h, NextLevel(h, level))
  }

  /**
   Lines 3-20.  The recursion ends on every list but the empty one, whose next level is empty again: there the
   source recurses for ever.
   */
  method ComputeMerkleRoot(h: Hash, hashSlice: seq<bytes>) returns (root: bytes)
    requires |hashSlice| > 0
    ensures root == Root(h, hashSlice)
    decreases |hashSlice|
  {
    if |hashSlice| == 1 {
      return hashSlice[0];
    }
    var level := hashSlice;
    if |level| % 2 == 1 {
      level := level + [level[|level| - 1]];
    }
    var tempHashes: seq<bytes> := [];
    var i := 0;
    while i < |level|
      invariant 0 <= i <= |level| && i % 2 == 0
      invariant tempHashes == NextLevel(h, hashSlice)[..i / 2]
    {
      assert Pair(hashSlice, i / 2) == level[i] + level[i + 1];
      tempHashes := tempHashes + [DoubleHash(h, level[i] + level[i + 1])];
      i := i + 2;
    }
    assert tempHashes == NextLevel(h, hashSlice);
    root := ComputeMerkleRoot(h, tempHashes);
  }

  // ---- binding

  predicate Leaves(level: seq<bytes>) {
    forall i :: 0 <= i < |level| ==> |level[i]| == 32
  }

  /** The first pair from i on that differs in its strings but not in its digest. */
  function CollidingPair(h: Hash, a: seq<bytes>, b: seq<bytes>, i: nat): Option<(bytes, bytes)>
    requires |a| == |b| && i <= (|a| + 1) / 2
    decreases |a| - i
  {
    if i == (|a| + 1) / 2 then None
    else if Collision(h, Pair(a, i), Pair(b, i)) then Some((Pair(a, i), Pair(b, i)))
    else CollidingPair(h, a, b, i + 1)
  }

  /** Walks two lists up to their roots, level by level, and returns the first two strings that collide. */
  function ExtractCollision(h: Hash, a: seq<bytes>, b: seq<bytes>): Option<(bytes, bytes)>
    requires |a| == |b| > 0
    decreases |a|
  {
    if |a| == 1 then None
    else
      match CollidingPair(h, a, b, 0)
      case Some(found) => Some(found)
      case None => ExtractCollision(h, NextLevel(h, a), NextLevel(h, b))
  }

  lemma {:induction false} CollidingPairFound(h: Hash, a: seq<bytes>, b: seq<bytes>, i: nat)
    requires |a| == |b| && i <= (|a| + 1) / 2 && Leaves(a) && Leaves(b)
    ensures match CollidingPair(h, a, b, i)
            case Some((x, y)) => |x| == |y| == 64 && Collision(h, x, y)
            case None => forall j :: i <= j < (|a| + 1) / 2 ==> !Collision(h, Pair(a, j), Pair(b, j))
    decreases |a| - i
  {
    if i < (|a| + 1) / 2 && !Collision(h, Pair(a, i), Pair(b, i)) {
      CollidingPairFound(h, a, b, i + 1);
    }
  }

  /** Equal pairs, everywhere, are equal levels. */
  lemma PairsDetermine(a: seq<bytes>, b: seq<bytes>)
    requires |a| == |b| && Leaves(a) && Leaves(b)
    requires forall i :: 0 <= i < (|a| + 1) / 2 ==> Pair(a, i) == Pair(b, i)
    ensures a == b
  {
    forall k | 0 <= k < |a| ensures a[k] == b[k] {
      var i := k / 2;
      assert Pair(a, i) == Pair(b, i);
      assert Padded(a)[k] == a[k] && Padded(b)[k] == b[k];
      SplitEqual(Padded(a)[2 * i], Padded(b)[2 * i], Padded(a)[2 * i + 1], Padded(b)[2 * i + 1]);
    }
  }

  lemma LevelBinding(h: Hash, a: seq<bytes>, b: seq<bytes>)
    requires |a| == |b| && Leaves(a) && Leaves(b) && NextLevel(h, a) == NextLevel(h, b)
    requires forall i :: 0 <= i < (|a| + 1) / 2 ==> !Collision(h, Pair(a, i), Pair(b, i))
    ensures a == b
  {
    hide Pair, Padded, DoubleHash;
    var up, vp := NextLevel(h, a), NextLevel(h, b);
    forall i | 0 <= i < (|a| + 1) / 2 ensures Pair(a, i) == Pair(b, i) {
      assert up[i] == vp[i];
    }
    PairsDetermine(a, b);
  }

  /**
   The root binds the list: two lists of one length with one root are the same list, or the walk returns two
   distinct strings of 64 bytes with one double hash.
   */
  lemma {:induction false} RootBinding(h: Hash, a: seq<bytes>, b: seq<bytes>)
    requires |a| == |b| > 0 && Leaves(a) && Leaves(b) && Root(h, a) == Root(h, b)
    ensures match ExtractCollision(h, a, b)
            case None => a == b
            case Some((x, y)) => |x| == |y| == 64 && Collision(h, x, y)
    decreases |a|
  {
    hide Pair, Padded, Collision, CollidingPair, DoubleHash, NextLevel;
    if |a| == 1 {
      assert a == [a[0]] && b == [b[0]];
    } else {
      CollidingPairFound(h, a, b, 0);
      if CollidingPair(h, a, b, 0) == None {
        RootBinding(h, NextLevel(h, a), NextLevel(h, b));
        if NextLevel(h, a) == NextLevel(h, b) {
          LevelBinding(h, a, b);
        }
      }
    }
  }

  // ---- what the root does not bind: the length

  lemma PairConcat(a: seq<bytes>, b: seq<bytes>, i: nat)
    requires |a| % 2 == 0 && |b| % 2 == 0 && 2 * i + 1 < |a + b|
    ensures Padded(a + b) == a + b && Padded(a) == a && Padded(b) == b
    ensures Pair(a + b, i) == if 2 * i + 1 < |a| then Pair(a, i) else Pair(b, i - |a| / 2)
  {
  }

  lemma NextLevelConcat(h: Hash, a: seq<bytes>, b: seq<bytes>)
    requires |a| % 2 == 0 && |b| % 2 == 0
    ensures NextLevel(h, a + b) == NextLevel(h, a) + NextLevel(h, b)
  {
    var u, v, w := NextLevel(h, a + b), NextLevel(h, a), NextLevel(h, b);
    hide DoubleHash;
    assert |a + b| % 2 == 0 && |u| == |v| + |w|;
    forall i | 0 <= i < |u| ensures u[i] == (v + w)[i] {
      PairConcat(a, b, i);
    }
  }

  /** Repeating the last leaf of an odd list changes nothing one level up. */
  lemma OddRepeated(h: Hash, a: seq<bytes>)
    requires |a| % 2 == 1
    ensures NextLevel(h, a + [a[|a| - 1]]) == NextLevel(h, a)
  {
    var b := a + [a[|a| - 1]];
    assert Padded(a) == b == Padded(b);
    forall i | 0 <= i < (|a| + 1) / 2 ensures Pair(a, i) == Pair(b, i) {
    }
  }

  /** One level up, a repeated even tail is a repeated tail of half the length. */
  lemma RepeatedTailUp(h: Hash, a: seq<bytes>, half: nat)
    requires |a| % 2 == 0 && 2 * half <= |a|
    ensures var tail, up := a[|a| - 2 * half..], NextLevel(h, a);
            NextLevel(h, a + tail) == up + up[|up| - half..]
  {
    hide NextLevel;
    var front, tail := a[..|a| - 2 * half], a[|a| - 2 * half..];
    NextLevelConcat(h, a, tail);
    NextLevelConcat(h, front, tail);
    assert a == front + tail;
  }

  lemma RootUp(h: Hash, level: seq<bytes>)
    requires |level| > 1
    ensures Root(h, level) == Root(h, NextLevel(h, level))
  {
  }

  /** n * 2^k. */
  function Doubled(n: nat, k: nat): nat {
    if k == 0 then n else 2 * Doubled(n, k - 1)
  }

  lemma {:induction false} DoubledBounds(m: nat, k: nat)
    requires m >= 3
    ensures Doubled(m, k) >= 3 * Doubled(1, k) > 0
  {
    if k > 0 {
      DoubledBounds(m, k - 1);
    }
  }

  /**
   A list of m * 2^k leaves, m odd and at least 3, keeps its root when its last 2^k leaves are written once more;
   for k == 0 that is the last leaf of an odd list.
   */
  lemma {:induction false} RootOfRepeatedTail(h: Hash, a: seq<bytes>, m: nat, k: nat)
    requires m % 2 == 1 && m >= 3 && |a| == Doubled(m, k)
    ensures Doubled(1, k) < |a| && Root(h, a + a[|a| - Doubled(1, k)..]) == Root(h, a)
    decreases k
  {
    hide NextLevel, Root;
    DoubledBounds(m, k);
    var tail := a[|a| - Doubled(1, k)..];
    RootUp(h, a);
    RootUp(h, a + tail);
    if k == 0 {
      assert tail == [a[|a| - 1]];
      OddRepeated(h, a);
    } else {
      RepeatedTailUp(h, a, Doubled(1, k - 1));
      RootOfRepeatedTail(h, NextLevel(h, a), m, k - 1);
    }
  }

  // ---- the root by itself, without levels

  /** One step up: neighbours are joined in order and hashed twice, and a last leaf without neighbour is its own. */
  lemma RootOfNeighbours(h: Hash, s: seq<bytes>, t: seq<bytes>)
    requires |s| > 1 && |t| == (|s| + 1) / 2
    requires forall i :: 0 <= i < |t| ==> t[i] == h(h(s[2 * i] + s[if 2 * i + 1 < |s| then 2 * i + 1 else 2 * i]))
    ensures Root(h, s) == Root(h, t)
  {
    var up := NextLevel(h, s);
    hide Pair, NextLevel, Root;
    forall i | 0 <= i < |t| ensures up[i] == t[i] {
      PairAt(s, i);
    }
    assert up == t;
    RootUp(h, s);
  }

  lemma PairAt(s: seq<bytes>, i: nat)
    requires 2 * i < |s|
    ensures 2 * i + 1 < |Padded(s)| && Pair(s, i) == s[2 * i] + s[if 2 * i + 1 < |s| then 2 * i + 1 else 2 * i]
  {
  }

  lemma RootOfOne(h: Hash, x: bytes)
    ensures Root(h, [x]) == x
  {
  }

  lemma RootOfTwo(h: Hash, a: bytes, b: bytes)
    ensures Root(h, [a, b]) == h(h(a + b))
  {
    RootOfNeighbours(h, [a, b], [h(h(a + b))]);
    RootOfOne(h, h(h(a + b)));
  }

  /** Over two halves of 2^k leaves the root is the double hash of the left root and the right root, in this order. */
  lemma {:induction false} RootOfHalves(h: Hash, s: seq<bytes>, t: seq<bytes>, k: nat)
    requires |s| == |t| == Doubled(1, k)
    ensures |s| > 0 && Root(h, s + t) == h(h(Root(h, s) + Root(h, t)))
    decreases k
  {
    hide NextLevel, Root;
    if k == 0 {
      RootOfOne(h, s[0]);
      RootOfOne(h, t[0]);
      RootOfTwo(h, s[0], t[0]);
      assert s == [s[0]] && t == [t[0]] && s + t == [s[0], t[0]];
    } else {
      NextLevelConcat(h, s, t);
      RootOfHalves(h, NextLevel(h, s), NextLevel(h, t), k - 1);
      RootUp(h, s);
      RootUp(h, t);
      RootUp(h, s + t);
    }
  }

  // ---- the root of a block

  function TxIds(txs: seq<Tx>): (r: seq<bytes>)
    ensures |r| == |txs| && forall i :: 0 <= i < |r| ==> r[i] == txs[i].txid
  {
    seq(|txs|, i requires 0 <= i < |txs| => txs[i].txid)
  }

  /** core/block.go, lines 145-151. */
  method GenerateBlockMerkleRoot(h: Hash, txs: seq<Tx>) returns (root: bytes)
    requires |txs| > 0
    ensures root == Root(h, TxIds(txs))
  {
    var tmpTXID: seq<bytes> := [];
    for i := 0 to |txs|
      invariant tmpTXID == TxIds(txs)[..i]
    {
      tmpTXID := tmpTXID + [txs[i].txid];
    }
    assert tmpTXID == TxIds(txs);
    root := ComputeMerkleRoot(h, tmpTXID);
  }

  /**
   The root commits to the block: two blocks of one length with one Merkle root hold transactions of the same
   content in the same order, or a collision can be named: two strings on the way up, or two transactions.
   */
  lemma BlockBinding(h: Hash, txs: seq<Tx>, uxs: seq<Tx>)
    requires |txs| == |uxs| > 0 && Root(h, TxIds(txs)) == Root(h, TxIds(uxs))
    requires forall i :: 0 <= i < |txs| ==> Identified(h, txs[i]) && Identified(h, uxs[i])
    ensures match ExtractCollision(h, TxIds(txs), TxIds(uxs))
            case Some((x, y)) => Collision(h, x, y)
            case None => forall i :: 0 <= i < |txs| ==>
              SameContent(txs[i], uxs[i])
              || Collision(h, Encode(txs[i].inputs, txs[i].outputs), Encode(uxs[i].inputs, uxs[i].outputs))
  {
    hide Root, ExtractCollision, Collision, Encode, SameContent, Encodable, TxId;
    var a, b := TxIds(txs), TxIds(uxs);
    RootBinding(h, a, b);
    if a == b {
      forall i | 0 <= i < |txs|
        ensures SameContent(txs[i], uxs[i])
             || Collision(h, Encode(txs[i].inputs, txs[i].outputs), Encode(uxs[i].inputs, uxs[i].outputs))
      {
        assert a[i] == b[i];
        TxIdBinding(h, txs[i], uxs[i]);
      }
    }
  }
}
