/** utils/serializer.go: packing a vector of booleans into bytes, last byte first. */
module Serializer {
  import opened Bytes

  function Pow2(n: nat): (r: nat)
    ensures r > 0
  {
    if n == 0 then 1 else 2 * Pow2(n - 1)
  }

  /** Bit j of b, counting from the least significant. */
  predicate Bit(b: nat, j: nat) {
    b / Pow2(j) % 2 == 1
  }

  function PackByte(bits: seq<bool>): (r: nat)
    ensures r < Pow2(|bits|)
  {
    if |bits| == 0 then 0 else (if bits[0] then 1 else 0) + 2 * PackByte(bits[1..])
  }

  function BytesNeeded(n: nat): nat {
    (n + 7) / 8
  }

  /** The q-th group of (at most) eight flags. */
  function Chunk(v: seq<bool>, q: nat): (r: seq<bool>)
    requires q < BytesNeeded(|v|)
    ensures |r| <= 8
  {
    v[8 * q..if 8 * q + 8 <= |v| then 8 * q + 8 else |v|]
  }

  function PackChunk(v: seq<bool>, q: nat): byte
    requires q < BytesNeeded(|v|)
  {
    Pow2Monotone(|Chunk(v, q)|, 8);
    PackByte(Chunk(v, q))
  }

  /** The one-hot form: group 0 goes into the last byte. */
  function PackBits(v: seq<bool>): (r: bytes)
    ensures |r| == BytesNeeded(|v|)
  {
    seq(BytesNeeded(|v|), k requires 0 <= k < BytesNeeded(|v|) => PackChunk(v, BytesNeeded(|v|) - 1 - k))
  }

  /** The n flags read back from packed bytes. */
  function UnpackBits(s: bytes, n: nat): (r: seq<bool>)
    requires |s| == BytesNeeded(n)
    ensures |r| == n
  {
    seq(n, i requires 0 <= i < n => Bit(s[|s| - 1 - i / 8], i % 8))
  }

  lemma {:induction false} Pow2Monotone(m: nat, n: nat)
    requires m <= n
    ensures Pow2(m) <= Pow2(n)
  {
    if m < n {
      Pow2Monotone(m, n - 1);
    }
  }

  lemma {:induction false} PackByteAppend(bits: seq<bool>, b: bool)
    ensures PackByte(bits + [b]) == PackByte(bits) + if b then Pow2(|bits|) else 0
  {
    if |bits| == 0 {
      assert bits + [b] == [b];
      assert PackByte([b]) == (if b then 1 else 0) + 2 * PackByte([b][1..]);
    } else {
      assert (bits + [b])[1..] == bits[1..] + [b];
      PackByteAppend(bits[1..], b);
    }
  }

  lemma {:induction false} HalfBit(n: nat, c: nat, j: nat)
    requires c < 2 && j > 0
    ensures (c + 2 * n) / Pow2(j) == n / Pow2(j - 1)
  {
    var p := Pow2(j - 1);
    var q, r := n / p, n % p;
    assert n == q * p + r;
    assert c + 2 * n == q * (2 * p) + (c + 2 * r) by {
      assert 2 * (q * p) == q * (2 * p);
    }
    DivUnique(c + 2 * n, 2 * p, q, c + 2 * r);
  }

  lemma DivUnique(x: nat, d: nat, q: nat, r: nat)
    requires d > 0 && r < d && x == q * d + r
    ensures x / d == q
  {
    var k := x / d - q;
    assert k * d == r - x % d by {
      assert x == (x / d) * d + x % d;
      assert k * d == (x / d) * d - q * d;
    }
    MultipleBound(k, d);
  }

  lemma MultipleBound(k: int, d: int)
    requires d >= 0
    ensures k >= 1 ==> k * d >= d
    ensures k <= -1 ==> k * d <= -d
  {
    if k >= 1 {
      assert k * d == (k - 1) * d + d;
    } else if k <= -1 {
      assert k * d == (k + 1) * d - d;
    }
  }

  lemma {:induction false} PackByteBit(bits: seq<bool>, j: nat)
    requires |bits| <= 8
    ensures PackByte(bits) < 256
    ensures Bit(PackByte(bits), j) <==> j < |bits| && bits[j]
  {
    Pow2Monotone(|bits|, 8);
    if |bits| == 0 {
      assert 0 / Pow2(j) == 0;
    } else if j == 0 {
    } else {
      HalfBit(PackByte(bits[1..]), if bits[0] then 1 else 0, j);
      PackByteBit(bits[1..], j - 1);
    }
  }

  lemma PackBitsAt(v: seq<bool>, q: nat)
    requires q < BytesNeeded(|v|)
    ensures PackBits(v)[BytesNeeded(|v|) - 1 - q] == PackByte(Chunk(v, q))
  {
    var n := BytesNeeded(|v|);
    assert n - 1 - (n - 1 - q) == q;
    assert PackBits(v)[n - 1 - q] == PackChunk(v, n - 1 - (n - 1 - q));
  }

  /** Where every flag lands, and that the unused high bits of the first byte are zero. */
  lemma PackedBitPosition(v: seq<bool>, i: nat)
    requires i < 8 * BytesNeeded(|v|)
    ensures Bit(PackBits(v)[BytesNeeded(|v|) - 1 - i / 8], i % 8) <==> i < |v| && v[i]
  {
    var q := i / 8;
    PackByteBit(Chunk(v, q), i % 8);
    PackBitsAt(v, q);
    assert i == 8 * q + i % 8;
  }

  /** Packing then unpacking is the identity at every length. */
  lemma PackRoundTrip(v: seq<bool>)
    ensures UnpackBits(PackBits(v), |v|) == v
  {
    forall i | 0 <= i < |v|
      ensures UnpackBits(PackBits(v), |v|)[i] == v[i]
    {
      PackedBitPosition(v, i);
    }
  }

  /** One more flag in a group that is not yet full. */
  lemma GroupStep(v: seq<bool>, q: nat, i: nat)
    requires 8 * q <= i < |v| && i < 8 * q + 8
    ensures PackByte(v[8 * q..i + 1]) == PackByte(v[8 * q..i]) + if v[i] then Pow2(i - 8 * q) else 0
    ensures PackByte(v[8 * q..i + 1]) < 256
    ensures q < BytesNeeded(|v|)
    ensures i + 1 == 8 * q + 8 || i + 1 == |v| ==>
              PackByte(v[8 * q..i + 1]) == PackBits(v)[BytesNeeded(|v|) - 1 - q]
    ensures i + 1 == |v| ==> q == BytesNeeded(|v|) - 1
  {
    assert v[8 * q..i + 1] == v[8 * q..i] + [v[i]];
    PackByteAppend(v[8 * q..i], v[i]);
    Pow2Monotone(|v[8 * q..i + 1]|, 8);
    if i + 1 == 8 * q + 8 || i + 1 == |v| {
      assert Chunk(v, q) == v[8 * q..i + 1];
      PackBitsAt(v, q);
    }
  }

  /** Before flag i: the counter, the position and the byte under construction, in group q. */
  ghost predicate Packing(v: seq<bool>, i: nat, q: nat, packCounter: int, pos: int, tempb: nat) {
    && 0 <= packCounter <= 7
    && i == 8 * q + 7 - packCounter <= |v|
    && pos == BytesNeeded(|v|) - 1 - q
    && tempb == PackByte(v[8 * q..i])
  }

  lemma PackingStep(v: seq<bool>, i: nat, q: nat, packCounter: int, pos: int, tempb: nat)
    requires Packing(v, i, q, packCounter, pos, tempb) && i < |v|
    ensures 0 <= pos < BytesNeeded(|v|)
    ensures var t := tempb + if v[i] then Pow2(7 - packCounter) else 0;
            t < 256 && if packCounter == 0 then t == PackBits(v)[pos] && Packing(v, i + 1, q + 1, 7, pos - 1, 0)
                       else Packing(v, i + 1, q, packCounter - 1, pos, t)
  {
    hide PackByte, PackBits, BytesNeeded, Pow2;
    GroupStep(v, q, i);
    if packCounter == 0 {
      assert v[8 * (q + 1)..i + 1] == [];
      PackByteEmpty();
    }
  }

  lemma PackingDone(v: seq<bool>, q: nat, packCounter: int, pos: int, tempb: nat)
    requires Packing(v, |v|, q, packCounter, pos, tempb)
    ensures if packCounter < 7 then pos == 0 && |PackBits(v)| > 0 && tempb == PackBits(v)[0]
            else pos == -1 && tempb == 0
  {
    hide PackByte, PackBits, Pow2;
    if packCounter < 7 {
      GroupStep(v, q, |v| - 1);
    } else {
      assert v[8 * q..|v|] == [];
      PackByteEmpty();
    }
  }

  lemma PackByteEmpty()
    ensures PackByte([]) == 0
  {
  }

  /** The countdown loop of the source, over a byte under construction. */
  method SerializeToOneHot(data: seq<bool>) returns (packed: bytes)
    ensures packed == PackBits(data)
  {
    assert data[..0] == [];
    PackByteEmpty();
    hide Pow2, PackByte, PackBits, PackChunk;
    var noOfBytes: int := BytesNeeded(|data|);
    var res := new byte[noOfBytes](_ => 0);
    var tempb: nat := 0;
    var packCounter := 7;
    var pos := noOfBytes - 1;
    ghost var q: nat, full := 0, PackBits(data);
    assert Packing(data, 0, q, packCounter, pos, tempb);
    hide Packing, BytesNeeded;
    for i := 0 to |data|
      invariant Packing(data, i, q, packCounter, pos, tempb)
      invariant -1 <= pos < noOfBytes == res.Length == |full|
      invariant forall k :: pos < k < noOfBytes ==> res[k] == full[k]
      invariant pos >= 0 ==> res[0] == 0
    {
      PackingStep(data, i, q, packCounter, pos, tempb);
      if data[i] {
        tempb := tempb + Pow2(7 - packCounter);
      }
      if packCounter == 0 {
        packCounter := 7;
        res[pos] := tempb;
        pos := pos - 1;
        tempb := 0;
        q := q + 1;
      } else {
        packCounter := packCounter - 1;
      }
    }
    PackingDone(data, q, packCounter, pos, tempb);
    if tempb != 0 {
      res[pos] := tempb;
    }
    packed := res[..];
  }

  /** The indices at which v holds, in increasing order. */
  function TrueIndices(v: seq<bool>): (r: seq<nat>)
    ensures forall i :: 0 <= i < |r| ==> r[i] < |v| && v[r[i]]
    ensures forall i, j :: 0 <= i < j < |r| ==> r[i] < r[j]
    ensures forall i :: 0 <= i < |v| && v[i] ==> i in r
  {
    if |v| == 0 then []
    else
      var front := TrueIndices(v[..|v| - 1]);
      if v[|v| - 1] then front + [|v| - 1] else front
  }

  lemma TrueIndicesNext(v: seq<bool>, b: bool)
    ensures TrueIndices(v + [b]) == TrueIndices(v) + if b then [|v|] else []
  {
    assert (v + [b])[..|v|] == v;
  }
}
