/** db/dbwrapper.go: a masked key-value store with a deferred batch and values split over pages. */
module DbWrapper {
  import opened Bytes
  import opened Serializer

  // ---- masking

  /** Exclusive or of the low n bits. */
  function XorBits(a: nat, b: nat, n: nat): (r: nat)
    ensures r < Pow2(n)
  {
    if n == 0 then 0 else 2 * XorBits(a / 2, b / 2, n - 1) + (a + b) % 2
  }

  lemma XorStep(a: nat, b: nat, n: nat)
    requires n > 0
    ensures XorBits(a, b, n) / 2 == XorBits(a / 2, b / 2, n - 1) && XorBits(a, b, n) % 2 == (a + b) % 2
  {
  }

  lemma Parity(a: nat, b: nat, x: nat, r: nat)
    requires x % 2 == (a + b) % 2 && r % 2 == (x + b) % 2 && r / 2 == a / 2
    ensures r == a
  {
  }

  lemma {:induction false} XorBitsTwice(a: nat, b: nat, n: nat)
    requires a < Pow2(n)
    ensures XorBits(XorBits(a, b, n), b, n) == a
  {
    if n > 0 {
      assert a / 2 < Pow2(n - 1);
      hide XorBits, Pow2;
      var x := XorBits(a, b, n);
      var r := XorBits(x, b, n);
      XorStep(a, b, n);
      XorStep(x, b, n);
      XorBitsTwice(a / 2, b / 2, n - 1);
      Parity(a, b, x, r);
    }
  }

  lemma {:induction false} XorBitsFixed(a: nat, b: nat, n: nat)
    requires a < Pow2(n) && b < Pow2(n)
    ensures XorBits(a, b, n) == a <==> b == 0
  {
    if n > 0 {
      var x := XorBits(a, b, n);
      assert x / 2 == XorBits(a / 2, b / 2, n - 1) && x % 2 == (a + b) % 2;
      XorBitsFixed(a / 2, b / 2, n - 1);
    }
  }

  function Xor(a: byte, b: byte): byte {
    assert Pow2(8) == 256 by { assert Pow2(4) == 16; }
    XorBits(a, b, 8)
  }

  lemma BitLow(x: nat)
    ensures Bit(x, 0) <==> x % 2 == 1
  {
  }

  lemma BitHigh(x: nat, j: nat)
    requires j > 0
    ensures Bit(x, j) <==> Bit(x / 2, j - 1)
  {
    HalfBit(x / 2, x % 2, j);
  }

  lemma {:induction false} XorBitsAt(a: nat, b: nat, n: nat, j: nat)
    requires j < n
    ensures Bit(XorBits(a, b, n), j) <==> Bit(a, j) != Bit(b, j)
  {
    XorStep(a, b, n);
    hide XorBits, Bit, Pow2;
    var x := XorBits(a, b, n);
    if j == 0 {
      BitLow(x);
      BitLow(a);
      BitLow(b);
    } else {
      XorBitsAt(a / 2, b / 2, n - 1, j - 1);
      BitHigh(x, j);
      BitHigh(a, j);
      BitHigh(b, j);
    }
  }

  /** Every bit is the exclusive or of the two bits. */
  lemma XorAt(a: byte, b: byte, j: nat)
    requires j < 8
    ensures Bit(Xor(a, b), j) <==> Bit(a, j) != Bit(b, j)
  {
    XorBitsAt(a, b, 8, j);
  }

  function Mask(key: bytes, v: bytes): (r: bytes)
    requires |key| > 0
    ensures |r| == |v| && forall i :: 0 <= i < |r| ==> r[i] == Xor(v[i], key[i % |key|])
  {
    seq(|v|, i requires 0 <= i < |v| => Xor(v[i], key[i % |key|]))
  }

  /** Masking cancels itself. */
  lemma MaskTwice(key: bytes, v: bytes)
    requires |key| > 0
    ensures Mask(key, Mask(key, v)) == v
  {
    assert Pow2(8) == 256 by { assert Pow2(4) == 16; }
    forall i | 0 <= i < |v| ensures Mask(key, Mask(key, v))[i] == v[i] {
      XorBitsTwice(v[i], key[i % |key|], 8);
    }
  }

  /** A masked value equals the value exactly when every key byte it meets is zero. */
  lemma MaskFixed(key: bytes, v: bytes)
    requires |key| > 0
    ensures Mask(key, v) == v <==> forall i :: 0 <= i < |v| ==> key[i % |key|] == 0
  {
    assert Pow2(8) == 256 by { assert Pow2(4) == 16; }
    forall i | 0 <= i < |v| ensures Mask(key, v)[i] == v[i] <==> key[i % |key|] == 0 {
      XorBitsFixed(v[i], key[i % |key|], 8);
    }
  }

  // ---- the store

  type Store = map<bytes, bytes>
  type Batch = seq<(bytes, bytes)>

  function ApplyBatch(s: Store, b: Batch): Store {
    if |b| == 0 then s else ApplyBatch(s, b[..|b| - 1])[b[|b| - 1].0 := b[|b| - 1].1]
  }

  function Prepend(a: bytes, b: Option<bytes>): Option<bytes> {
    if b.Some? then Some(a + b.value) else None
  }

  lemma PrependTwice(a: bytes, b: bytes, c: Option<bytes>)
    ensures Prepend(a, Prepend(b, c)) == Prepend(a + b, c)
    ensures Prepend([], c) == c
  {
    if c.Some? {
      assert a + (b + c.value) == (a + b) + c.value && [] + c.value == c.value;
    }
  }

  // ---- pages

  /** The source starts a new page only while more than a page remains. */
  function PageCount(n: nat, size: nat): (r: nat)
    requires size > 0
    ensures r > 0
  {
    if n == 0 then 1 else (n - 1) / size + 1
  }

  predicate Boundary(i: nat, size: nat)
    requires size > 0
  {
    i > 0 && i % size == 0
  }

  /** The value after the marker of every continued page has landed on the first byte of the next. */
  function Clobber(v: bytes, size: nat): (r: bytes)
    requires size > 0
    ensures |r| == |v| && forall i :: 0 <= i < |r| ==> r[i] == if Boundary(i, size) then 0 else v[i]
  {
    seq(|v|, i requires 0 <= i < |v| => if Boundary(i, size) then 0 else v[i])
  }

  /** How much of the front is overwritten when the page number wraps around. */
  function Lost(n: nat, size: nat): (r: nat)
    requires size > 0
    ensures r <= n
  {
    LostBound(n, size);
    (PageCount(n, size) - 1) / 256 * 256 * size
  }

  lemma LostBound(n: nat, size: nat)
    requires size > 0
    ensures 0 <= (PageCount(n, size) - 1) / 256 * 256 * size <= n
    ensures (PageCount(n, size) - 1) * size <= n <= PageCount(n, size) * size
  {
    var p := PageCount(n, size) - 1;
    if n > 0 {
      assert n - 1 == p * size + (n - 1) % size;
      var q := p / 256 * 256;
      assert q <= p;
      assert q * size <= p * size by { MultiplyMonotone(q, p, size); }
    }
  }

  lemma MultiplyMonotone(a: nat, b: nat, c: nat)
    requires a <= b
    ensures a * c <= b * c
  {
    assert b * c == a * c + (b - a) * c;
  }

  /** What PageGet returns after PageInsert. */
  function Kept(v: bytes, size: nat): bytes
    requires size > 0
  {
    Clobber(v, size)[Lost(|v|, size)..]
  }

  /**
   Paging gives a value back unchanged exactly when it fits into 256 pages and the first byte of every page after
   the first is already zero.
   */
  lemma PagingExact(v: bytes, size: nat)
    requires size > 0
    ensures Kept(v, size) == v
       <==> |v| <= 256 * size && forall i :: 0 <= i < |v| && Boundary(i, size) ==> v[i] == 0
  {
    var n, p := |v|, PageCount(|v|, size) - 1;
    LostBound(n, size);
    if p < 256 {
      assert Lost(n, size) == 0;
      MultiplyMonotone(p + 1, 256, size);
      assert Kept(v, size) == Clobber(v, size);
      if Kept(v, size) == v {
        forall i | 0 <= i < n && Boundary(i, size) ensures v[i] == 0 {
          assert Clobber(v, size)[i] == v[i];
        }
      }
    } else {
      var q := p / 256 * 256;
      MultiplyMonotone(256, q, size);
      MultiplyMonotone(256, p, size);
      assert Lost(n, size) == q * size > 0;
      assert n > p * size;
    }
  }

  /** Two bytes 1 on pages of one byte: the second is lost. */
  lemma PagingCounterexample()
    ensures Kept([1, 1], 1) != [1, 1]
  {
    var v: bytes := [1, 1];
    assert Boundary(1, 1) && v[1] == 1;
    PagingExact(v, 1);
  }

  /** Where page j starts. */
  function Offset(j: nat, size: nat): nat {
    j * size
  }

  lemma OffsetStep(j: nat, size: nat)
    ensures Offset(0, size) == 0 && Offset(j + 1, size) == Offset(j, size) + size
  {
    assert (j + 1) * size == j * size + size;
  }

  lemma OffsetMonotone(i: nat, j: nat, size: nat)
    requires i <= j
    ensures Offset(i, size) <= Offset(j, size)
  {
    MultiplyMonotone(i, j, size);
  }

  lemma LastPage(n: nat, size: nat, j: nat)
    requires size > 0 && Offset(j, size) <= n <= Offset(j, size) + size && (j > 0 ==> Offset(j, size) < n)
    ensures j == PageCount(n, size) - 1
  {
    if n > 0 {
      DivUnique(n - 1, size, j, n - 1 - j * size);
    }
  }

  lemma KeptTail(v: bytes, size: nat)
    requires size > 0
    ensures Kept(v, size) == Clobber(v, size)[Lost(|v|, size)..]
  {
  }

  function PageAt(w: bytes, size: nat, i: nat): bytes
    requires Offset(i, size) + size <= |w|
  {
    w[Offset(i, size)..Offset(i, size) + size]
  }

  lemma NoBoundaryInside(j: nat, size: nat, d: nat)
    requires 0 <= d < size
    ensures (Offset(j, size) + d) % size == d
  {
    DivUnique(Offset(j, size) + d, size, j, d);
    assert (Offset(j, size) + d) == ((Offset(j, size) + d) / size) * size + (Offset(j, size) + d) % size;
  }

  /** The value while the pages before idx have been cut off it. */
  function Partly(v: bytes, size: nat, idx: nat): (r: bytes)
    requires size > 0
    ensures |r| == |v|
  {
    var k := if idx < |v| then idx + 1 else |v|;
    Clobber(v, size)[..k] + v[k..]
  }

  /** The next marker clobbers exactly the first byte of the next page. */
  lemma PartlyStep(v: bytes, size: nat, j: nat)
    requires size > 0 && Offset(j, size) + size < |v|
    ensures var o := Offset(j, size); Partly(v, size, o)[o..o + size] == PageAt(Clobber(v, size), size, j)
    ensures Partly(v, size, Offset(j, size))[Offset(j, size) + size := 0] == Partly(v, size, Offset(j + 1, size))
  {
    SamePage(v, size, j);
    OffsetStep(j, size);
    NoBoundaryInside(j + 1, size, 0);
  }

  lemma PartlyEnd(v: bytes, size: nat, j: nat)
    requires size > 0 && Offset(j, size) <= |v| <= Offset(j, size) + size
    ensures Partly(v, size, Offset(j, size)) == Clobber(v, size)
  {
    SamePage(v, size, j);
  }

  lemma SamePage(v: bytes, size: nat, j: nat)
    requires size > 0
    ensures forall i :: Offset(j, size) < i < Offset(j, size) + size && i < |v| ==> Clobber(v, size)[i] == v[i]
  {
    forall i | Offset(j, size) < i < Offset(j, size) + size && i < |v| ensures Clobber(v, size)[i] == v[i] {
      NoBoundaryInside(j, size, i - Offset(j, size));
    }
  }

  /** The byte at the end of the key of page j, which wraps around. */
  function Number(j: nat): byte {
    j % 256
  }

  function NextNumber(page: byte): byte {
    if page == 255 then 0 else page + 1
  }

  lemma NumberStep(j: nat)
    ensures Number(0) == 0 && NextNumber(Number(j)) == Number(j + 1)
  {
  }

  /** The oldest page whose number has not been used again once j pages are stored. */
  function Oldest(j: nat): nat {
    if j < 256 then 0 else j - 256
  }

  /** `append(value[idx:idx+size], 0)`: the slice has room behind it, so the marker lands in the array. */
  method AppendMarker(value: array<byte>, idx: nat, size: nat) returns (page: bytes)
    requires idx + size < value.Length
    modifies value
    ensures page == old(value[..])[idx..idx + size] && value[..] == old(value[..])[idx + size := 0]
  {
    value[idx + size] := 0;
    page := value[idx..idx + size];
  }

  lemma PageKeysDiffer(key: bytes, i: nat, j: nat)
    requires i < j < i + 256
    ensures key + [Number(i)] != key + [Number(j)]
  {
    assert i % 256 != j % 256;
    assert (key + [Number(i)])[|key|] == Number(i) && (key + [Number(j)])[|key|] == Number(j);
  }

  /** k is a page key of this key. */
  predicate PageKey(key: bytes, k: bytes) {
    |k| == |key| + 1 && k[..|key|] == key
  }

  /** The KeyType byte in front of the data. */
  function BuildKey(keyType: byte, data: bytes): (r: bytes)
    ensures |r| == 1 + |data| && r[0] == keyType && r[1..] == data
  {
    [keyType] + data
  }

  function MaskedUnder(isObfuscated: bool, key: bytes, v: bytes): bytes
    requires |key| > 0
  {
    if isObfuscated then Mask(key, v) else v
  }

  class DBwrapper {
    const isObfuscated: bool
    const obfuscationKey: bytes
    var store: Store
    var currentBatch: Option<Batch>

    /** A generated key has eight bytes; a key found in the database was generated before. */
    constructor (isObfuscated: bool, obfuscationKey: bytes, store: Store)
      requires |obfuscationKey| > 0
      ensures Valid() && this.store == store && currentBatch == None
      ensures this.isObfuscated == isObfuscated && this.obfuscationKey == obfuscationKey
    {
      this.isObfuscated, this.obfuscationKey, this.store, currentBatch := isObfuscated, obfuscationKey, store, None;
    }

    ghost predicate Valid() {
      |obfuscationKey| > 0
    }

    function Masked(v: bytes): bytes
      requires Valid()
    {
      MaskedUnder(isObfuscated, obfuscationKey, v)
    }

    /** What the store answers for a key. */
    ghost function Look(key: bytes): Option<bytes>
      requires Valid()
      reads this`store
    {
      LookIn(store, key)
    }

    function LookIn(s: Store, key: bytes): Option<bytes>
      requires Valid()
    {
      if key in s then Some(Masked(s[key])) else None
    }

    lemma MaskedTwice(v: bytes)
      requires Valid()
      ensures Masked(Masked(v)) == v
    {
      if isObfuscated {
        MaskTwice(obfuscationKey, v);
      }
    }

    /** Lines 57-66. */
    method ObfuscateValue(value: bytes) returns (res: bytes)
      requires Valid()
      ensures res == Mask(obfuscationKey, value)
    {
      var buffer := new byte[|value|](_ => 0);
      for i := 0 to |value|
        invariant forall j :: 0 <= j < i ==> buffer[j] == Xor(value[j], obfuscationKey[j % |obfuscationKey|])
      {
        buffer[i] := Xor(value[i], obfuscationKey[i % |obfuscationKey|]);
      }
      res := buffer[..];
    }

    /** Lines 68-75. */
    method Insert(key: bytes, value: bytes)
      requires Valid()
      modifies this`store
      ensures store == old(store)[key := if isObfuscated then Mask(obfuscationKey, value) else value]
      ensures Look(key) == Some(value) && forall k :: k != key ==> Look(k) == old(Look(k))
    {
      var v := value;
      if isObfuscated {
        v := ObfuscateValue(value);
      }
      store := store[key := v];
      MaskedTwice(value);
    }

    /** Lines 97-105; None is leveldb.ErrNotFound. */
    method Get(key: bytes) returns (r: Option<bytes>)
      requires Valid()
      ensures r == Look(key)
      ensures r == if key !in store then None
                   else Some(if isObfuscated then Mask(obfuscationKey, store[key]) else store[key])
    {
      if key !in store {
        return None;
      }
      var v := store[key];
      if isObfuscated {
        v := ObfuscateValue(v);
      }
      r := Some(v);
    }

    /** Lines 107-109. */
    method Remove(key: bytes)
      requires Valid()
      modifies this`store
      ensures store == old(store) - {key}
      ensures Look(key) == None && forall k :: k != key ==> Look(k) == old(Look(k))
    {
      store := store - {key};
    }

    ghost function Pending(): Batch
      reads this`currentBatch
    {
      if currentBatch.Some? then currentBatch.value else []
    }

    /** Lines 77-83: the value goes into the batch as it is, unmasked. */
    method PutInBatch(key: bytes, value: bytes)
      modifies this`currentBatch
      ensures currentBatch.Some? && Pending() == old(Pending()) + [(key, value)]
    {
      if currentBatch == None {
        currentBatch := Some([]);
      }
      currentBatch := Some(currentBatch.value + [(key, value)]);
    }

    /** Lines 86-95. */
    method WriteBatch()
      modifies this`store, this`currentBatch
      ensures store == ApplyBatch(old(store), old(Pending())) && currentBatch == None
    {
      if currentBatch.Some? {
        for i := 0 to |currentBatch.value|
          invariant currentBatch == old(currentBatch)
          invariant store == ApplyBatch(old(store), currentBatch.value[..i])
        {
          assert currentBatch.value[..i + 1][..i] == currentBatch.value[..i];
          store := store[currentBatch.value[i].0 := currentBatch.value[i].1];
        }
        assert currentBatch.value[..|currentBatch.value|] == currentBatch.value;
      }
      currentBatch := None;
    }

    /** The mask does not show on v. */
    predicate Transparent(v: bytes)
      requires Valid()
    {
      isObfuscated ==> forall i :: 0 <= i < |v| ==> obfuscationKey[i % |obfuscationKey|] == 0
    }

    /**
     A value that reached the store through the batch reads back exactly when the mask does not show on it: the
     batch stores it unmasked and Get unmasks it.
     */
    lemma BatchReadsBack(key: bytes, value: bytes)
      requires Valid() && key in store && store[key] == value
      ensures Look(key) == Some(value) <==> Transparent(value)
    {
      MaskedFixed(value);
    }

    lemma MaskedFixed(v: bytes)
      requires Valid()
      ensures Masked(v) == v <==> Transparent(v)
    {
      if isObfuscated {
        MaskFixed(obfuscationKey, v);
      }
    }

    /** The store is not obfuscated, or under a key that masks nothing. */
    predicate Clear() {
      isObfuscated ==> forall i :: 0 <= i < |obfuscationKey| ==> obfuscationKey[i] == 0
    }

    /** On a value as long as the key the whole key shows. */
    lemma TransparentClear(v: bytes)
      requires Valid() && |v| >= |obfuscationKey|
      ensures Transparent(v) <==> Clear()
    {
      var n := |obfuscationKey|;
      if isObfuscated && Transparent(v) {
        forall i | 0 <= i < n ensures obfuscationKey[i] == 0 {
          assert i % n == i;
        }
      }
    }

    /** Under a generated key, of eight bytes, that does not start with zero no value but the empty one comes back. */
    lemma BatchCounterexample(key: bytes, value: bytes)
      requires isObfuscated && |obfuscationKey| == 8 && obfuscationKey[0] != 0
      requires key in store && store[key] == value && |value| > 0
      ensures Look(key) != Some(value)
    {
      BatchReadsBack(key, value);
      assert obfuscationKey[0 % |obfuscationKey|] != 0;
    }

    // ---- paging

    ghost predicate Continued(key: bytes, size: nat)
      requires Valid()
      reads this`store
    {
      Look(key).Some? && |Look(key).value| == size + 1
    }

    /** The pages from number b on, as PageGet assembles them. */
    ghost function ReadFrom(key: bytes, size: nat, b: nat): Option<bytes>
      requires Valid() && b <= 256
      reads this`store
    {
      ReadIn(store, key, size, b)
    }

    ghost function ReadIn(s: Store, key: bytes, size: nat, b: nat): Option<bytes>
      requires Valid() && b <= 256
      decreases 256 - b
    {
      if b == 256 || LookIn(s, key + [b]).None? then None
      else
        var data := LookIn(s, key + [b]).value;
        if |data| != size + 1 then Some(data)
        else
          Prepend(data[..size], ReadIn(s, key, size, b + 1))
    }

    /** The pages of w from number `from` to j - 1 are stored, continued, under their numbers modulo 256. */
    ghost predicate Stored(key: bytes, w: bytes, size: nat, from: nat, j: nat)
      requires Valid() && Offset(j, size) <= |w|
      reads this`store
    {
      forall i {:trigger PageIn(key, w, size, i, j)} :: from <= i < j ==> PageIn(key, w, size, i, j)
    }

    ghost predicate PageIn(key: bytes, w: bytes, size: nat, i: nat, j: nat)
      requires Valid() && Offset(j, size) <= |w| && i < j
      reads this`store
    {
      OffsetStep(i, size);
      OffsetMonotone(i + 1, j, size);
      Look(key + [Number(i)]) == Some(PageAt(w, size, i) + [0])
    }

    /** What a page is: its bytes and a marker 0, under the key and the page's number modulo 256. */
    lemma PageFormat(key: bytes, w: bytes, size: nat, i: nat, j: nat)
      requires Valid() && Offset(j, size) <= |w| && i < j && PageIn(key, w, size, i, j)
      ensures i * size + size <= |w| && Look(key + [i % 256]) == Some(w[i * size..i * size + size] + [0])
    {
      OffsetStep(i, size);
      OffsetMonotone(i + 1, j, size);
    }

    /** The pages of w as they are left: the last, without marker, and those before it whose number stays theirs. */
    ghost predicate Pages(key: bytes, w: bytes, size: nat, last: nat)
      requires Valid()
      reads this`store
    {
      && Offset(last, size) <= |w| <= Offset(last, size) + size && (last > 0 ==> Offset(last, size) < |w|)
      && Look(key + [Number(last)]) == Some(w[Offset(last, size)..])
      && Stored(key, w, size, Oldest(last + 1), last)
    }

    /** So the store holds, byte for byte, the last page and up to 255 before it. */
    lemma PagesFormat(key: bytes, w: bytes, size: nat, last: nat, i: nat)
      requires Valid() && Pages(key, w, size, last) && i <= last < i + 256
      ensures i * size <= |w| && (i < last ==> i * size + size <= |w|)
      ensures Look(key + [i % 256])
           == Some(if i == last then w[i * size..] else w[i * size..i * size + size] + [0])
    {
      if i < last {
        assert PageIn(key, w, size, i, last);
        PageFormat(key, w, size, i, last);
      }
    }

    /** Reading backwards from the last page of the last round. */
    lemma {:induction false} ReadBack(key: bytes, w: bytes, size: nat, s: nat, j: nat, b: nat)
      requires Valid() && size > 0 && s % 256 == 0 && s <= j < s + 256 && b <= j - s
      requires Offset(j, size) <= |w| <= Offset(j, size) + size
      requires Stored(key, w, size, s, j) && Look(key + [Number(j)]) == Some(w[Offset(j, size)..])
      ensures Offset(s + b, size) <= |w| && ReadFrom(key, size, b) == Some(w[Offset(s + b, size)..])
      decreases j - s - b
    {
      OffsetMonotone(s + b, j, size);
      OffsetStep(s + b, size);
      assert (s + b) % 256 == b;
      if s + b < j {
        OffsetMonotone(s + b + 1, j, size);
        ReadBack(key, w, size, s, j, b + 1);
        assert PageIn(key, w, size, s + b, j);
        var page := PageAt(w, size, s + b);
        OffsetStep(s + b, size);
        assert (page + [0])[..size] == page;
        assert page + w[Offset(s + b + 1, size)..] == w[Offset(s + b, size)..];
      }
    }

    /** A key under which something is read has a page that ends it, so PageGet returns: after PageInsert, for one. */
    lemma {:induction false} ReadEnds(key: bytes, size: nat, b: nat)
      requires Valid() && b <= 256 && ReadFrom(key, size, b).Some?
      ensures exists last :: 0 <= last < 256 && !Continued(key + [last], size)
      decreases 256 - b
    {
      if Continued(key + [b], size) {
        ReadEnds(key, size, b + 1);
      }
    }

    /** What is read under one key depends on no page key of another. */
    lemma {:induction false} ReadInSame(s: Store, s': Store, key: bytes, other: bytes, size: nat, b: nat)
      requires Valid() && b <= 256 && other != key
      requires forall k :: !PageKey(key, k) ==> LookIn(s, k) == LookIn(s', k)
      ensures ReadIn(s, other, size, b) == ReadIn(s', other, size, b)
      decreases 256 - b
    {
      if b < 256 {
        assert (other + [b])[..|other|] == other;
        assert !PageKey(key, other + [b]);
        ReadInSame(s, s', key, other, size, b + 1);
      }
    }

    /**
     Lines 111-132.  `append(value[idx:idx+maxPageSize], 0)` has room in the array behind the slice, so the marker
     of a continued page is written over the first byte of the next page before that page is stored.
     */
    method PageInsert(key: bytes, value: array<byte>, size: nat)
      requires Valid() && size > 0
      modifies this`store, value
      ensures value[..] == Clobber(old(value[..]), size)
      ensures ReadFrom(key, size, 0) == Some(Kept(old(value[..]), size))
      ensures exists last :: Pages(key, value[..], size, last)
      ensures forall k :: !PageKey(key, k) ==> Look(k) == old(Look(k))
      ensures forall other: bytes, n: nat :: other != key ==> ReadFrom(other, n, 0) == old(ReadFrom(other, n, 0))
    {
      ghost var v := value[..];
      ghost var w := Clobber(v, size);
      var rem: int := value.Length;
      var idx: int := 0;
      var page: byte := 0;
      ghost var j: nat := 0;
      assert value[..] == Partly(v, size, 0);
      OffsetStep(0, size);
      NumberStep(0);
      hide Number, NextNumber, Offset, Partly, Clobber, Kept, Stored, ReadFrom, Lost, PageCount, Boundary, Look, Masked;
      while rem > size
        invariant idx == Offset(j, size) && idx + rem == |v| && rem >= 0 && (j > 0 ==> rem > 0) && page == Number(j)
        invariant value[..] == Partly(v, size, Offset(j, size))
        invariant Stored(key, w, size, Oldest(j), j)
        invariant forall k :: !PageKey(key, k) ==> Look(k) == old(Look(k))
      {
        PartlyStep(v, size, j);
        OffsetStep(j, size);
        var data := AppendMarker(value, idx, size);
        StorePage(key, w, size, j, page, data);
        NumberStep(j);
        page := NextNumber(page);
        rem := rem - size;
        idx := idx + size;
        j := j + 1;
      }
      PartlyEnd(v, size, j);
      LastPage(|v|, size, j);
      assert value[idx..] == w[Offset(j, size)..];
      StoreLast(key, w, size, j, page, value[idx..]);
      assert Pages(key, w, size, j);
      KeptTail(v, size);
      forall other: bytes, n: nat | other != key ensures ReadFrom(other, n, 0) == old(ReadFrom(other, n, 0)) {
        ReadInSame(old(store), store, key, other, n, 0);
      }
    }

    /** A continued page, with its marker. */
    method StorePage(key: bytes, ghost w: bytes, size: nat, ghost j: nat, number: byte, page: bytes)
      requires Valid() && Offset(j, size) + size <= |w| && page == PageAt(w, size, j) && number == Number(j)
      requires Stored(key, w, size, Oldest(j), j)
      modifies this`store
      ensures Offset(j + 1, size) <= |w| && Stored(key, w, size, Oldest(j + 1), j + 1)
      ensures forall k :: !PageKey(key, k) ==> Look(k) == old(Look(k))
    {
      Insert(key + [number], page + [0]);
      OffsetStep(j, size);
      ghost var n := j + 1;
      forall i | Oldest(n) <= i < n ensures PageIn(key, w, size, i, n) {
        if i < j {
          PageKeysDiffer(key, i, j);
          assert old(PageIn(key, w, size, i, j));
        }
      }
    }

    /** The last page, and the reading of the whole value. */
    method StoreLast(key: bytes, ghost w: bytes, size: nat, ghost j: nat, number: byte, page: bytes)
      requires Valid() && size > 0 && j == PageCount(|w|, size) - 1 && Offset(j, size) <= |w| <= Offset(j, size) + size
      requires number == Number(j) && page == w[Offset(j, size)..]
      requires Stored(key, w, size, Oldest(j), j)
      modifies this`store
      ensures ReadFrom(key, size, 0) == Some(w[Lost(|w|, size)..])
      ensures Look(key + [Number(j)]) == Some(w[Offset(j, size)..]) && Stored(key, w, size, Oldest(j + 1), j)
      ensures forall k :: !PageKey(key, k) ==> Look(k) == old(Look(k))
    {
      Insert(key + [number], page);
      ghost var s := j / 256 * 256;
      forall i | Oldest(j + 1) <= i < j ensures PageIn(key, w, size, i, j) {
        PageKeysDiffer(key, i, j);
        assert old(PageIn(key, w, size, i, j));
      }
      ReadBack(key, w, size, s, j, 0);
    }

    /**
     Lines 134-151.  When all 256 pages of a key are continued the source never returns, so one of them has to end
     the value.
     */
    method PageGet(key: bytes, size: nat) returns (r: Option<bytes>)
      requires Valid() && exists b :: 0 <= b < 256 && !Continued(key + [b], size)
      ensures r == ReadFrom(key, size, 0)
    {
      ghost var last :| 0 <= last < 256 && !Continued(key + [last], size);
      var res: bytes := [];
      var page: byte := 0;
      PrependTwice([], [], ReadFrom(key, size, 0));
      while true
        invariant page <= last
        invariant ReadFrom(key, size, 0) == Prepend(res, ReadFrom(key, size, page))
        decreases last - page
      {
        var data := Get(key + [page]);
        if data == None {
          return None;
        }
        if |data.value| != size + 1 {
          res := res + data.value;
          break;
        }
        assert page < last;
        PrependTwice(res, data.value[..size], ReadFrom(key, size, page + 1));
        res := res + data.value[..size];
        page := NextNumber(page);
      }
      r := Some(res);
    }
  }
}
