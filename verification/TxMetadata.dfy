/**
 The stored form of a transaction's unspent outputs: written by SerializeTXMetadata (core/transaction.go), read by
 core/txmetadata_reader.go.
 */
module TxMetadata {
  import opened Bytes
  import opened Serializer
  import opened Transactions

  datatype Coin = Coin(value: uint64, script: bytes)

  /** One slot for every output; a spent output is an empty slot. */
  type Slots = seq<Option<Coin>>

  datatype Record = Record(isCoinbase: bool, blockHeight: uint32, slots: Slots)

  function SlotOf(o: Output): Option<Coin> {
    if o.isNotSpent then Some(Coin(o.value, o.scriptPubKey)) else None
  }

  function SlotsOf(outputs: seq<Output>): (r: Slots)
    ensures |r| == |outputs| && forall i :: 0 <= i < |r| ==> r[i] == SlotOf(outputs[i])
  {
    seq(|outputs|, i requires 0 <= i < |outputs| => SlotOf(outputs[i]))
  }

  function Unspent(s: Slots): (r: seq<bool>)
    ensures |r| == |s| && forall i :: 0 <= i < |r| ==> r[i] == s[i].Some?
  {
    seq(|s|, i requires 0 <= i < |s| => s[i].Some?)
  }

  function CoinsOf(s: Slots): seq<Coin> {
    if |s| == 0 then [] else (if s[0].Some? then [s[0].value] else []) + CoinsOf(s[1..])
  }

  function EncodeCoin(c: Coin): bytes {
    BE64(c.value) + (Len64(|c.script|) + c.script)
  }

  function EncodeCoins(s: seq<Coin>): bytes {
    if |s| == 0 then [] else EncodeCoin(s[0]) + EncodeCoins(s[1..])
  }

  function Header(r: Record): (s: bytes)
    ensures |s| == 9 && s[0] == (if r.isCoinbase then 1 else 0)
    ensures s[1..5] == BE32(r.blockHeight) && s[5..9] == Len32(|r.slots|)
  {
    [if r.isCoinbase then 1 else 0] + (BE32(r.blockHeight) + Len32(|r.slots|))
  }

  function EncodeRecord(r: Record): bytes {
    Header(r) + (PackBits(Unspent(r.slots)) + EncodeCoins(CoinsOf(r.slots)))
  }

  function RecordOf(tx: Tx): Record {
    Record(tx.isCoinbase, tx.blockHeight, SlotsOf(tx.outputs))
  }

  lemma {:induction false} CoinsAppend(s: Slots, x: Option<Coin>)
    ensures CoinsOf(s + [x]) == CoinsOf(s) + if x.Some? then [x.value] else []
  {
    if |s| == 0 {
      assert s + [x] == [x];
    } else {
      assert (s + [x])[0] == s[0] && (s + [x])[1..] == s[1..] + [x];
      CoinsAppend(s[1..], x);
    }
  }

  lemma {:induction false} EncodeCoinsAppend(s: seq<Coin>, c: Coin)
    ensures EncodeCoins(s + [c]) == EncodeCoins(s) + EncodeCoin(c)
  {
    if |s| == 0 {
      assert s + [c] == [c];
    } else {
      assert (s + [c])[1..] == s[1..] + [c];
      EncodeCoinsAppend(s[1..], c);
    }
  }

  /** Lines 161-208 of core/transaction.go. */
  method SerializeTXMetadata(tx: Tx) returns (metadata: bytes)
    ensures metadata == EncodeRecord(RecordOf(tx))
  {
    ghost var r := RecordOf(tx);
    var unspent := new bool[|tx.outputs|](_ => false);
    for i := 0 to |tx.outputs|
      invariant forall j :: 0 <= j < i ==> unspent[j] == tx.outputs[j].isNotSpent
    {
      unspent[i] := tx.outputs[i].isNotSpent;
    }
    metadata := [if tx.isCoinbase then 1 else 0];
    metadata := metadata + (BE32(tx.blockHeight) + Len32(|tx.outputs|));
    assert metadata == Header(r);
    var packed := SerializeToOneHot(unspent[..]);
    assert unspent[..] == Unspent(r.slots);
    metadata := metadata + packed;
    ghost var front := metadata;
    for i := 0 to |tx.outputs|
      invariant metadata == front + EncodeCoins(CoinsOf(r.slots[..i]))
    {
      assert r.slots[..i + 1] == r.slots[..i] + [r.slots[i]];
      CoinsAppend(r.slots[..i], r.slots[i]);
      if tx.outputs[i].isNotSpent {
        var c := Coin(tx.outputs[i].value, tx.outputs[i].scriptPubKey);
        EncodeCoinsAppend(CoinsOf(r.slots[..i]), c);
        AppendAssoc(front, EncodeCoins(CoinsOf(r.slots[..i])), EncodeCoin(c));
        metadata := metadata + EncodeCoin(c);
      } else {
        assert CoinsOf(r.slots[..i]) + [] == CoinsOf(r.slots[..i]);
      }
    }
    assert r.slots[..|tx.outputs|] == r.slots;
    AppendAssoc(Header(r), PackBits(Unspent(r.slots)), EncodeCoins(CoinsOf(r.slots)));
  }

  // ---- where every field of a record stands

  /** The bytes of the unspent outputs among these. */
  function Stored(outputs: seq<Output>): bytes {
    EncodeCoins(CoinsOf(SlotsOf(outputs)))
  }

  function StoredLength(s: seq<Output>): nat {
    if |s| == 0 then 0
    else StoredLength(s[..|s| - 1]) + if s[|s| - 1].isNotSpent then 16 + |s[|s| - 1].scriptPubKey| else 0
  }

  lemma {:induction false} CoinsConcat(s: Slots, t: Slots)
    ensures CoinsOf(s + t) == CoinsOf(s) + CoinsOf(t)
  {
    if |s| == 0 {
      assert s + t == t;
    } else {
      assert (s + t)[0] == s[0] && (s + t)[1..] == s[1..] + t;
      CoinsConcat(s[1..], t);
    }
  }

  lemma {:induction false} EncodeCoinsConcat(s: seq<Coin>, t: seq<Coin>)
    ensures EncodeCoins(s + t) == EncodeCoins(s) + EncodeCoins(t)
  {
    hide EncodeCoin;
    if |s| == 0 {
      assert s + t == t && [] + EncodeCoins(t) == EncodeCoins(t);
    } else {
      assert (s + t)[1..] == s[1..] + t;
      EncodeCoinsConcat(s[1..], t);
      AppendAssoc(EncodeCoin(s[0]), EncodeCoins(s[1..]), EncodeCoins(t));
    }
  }

  lemma StoredConcat(s: seq<Output>, t: seq<Output>)
    ensures Stored(s + t) == Stored(s) + Stored(t)
  {
    assert SlotsOf(s + t) == SlotsOf(s) + SlotsOf(t);
    hide CoinsOf, EncodeCoins, SlotsOf;
    CoinsConcat(SlotsOf(s), SlotsOf(t));
    EncodeCoinsConcat(CoinsOf(SlotsOf(s)), CoinsOf(SlotsOf(t)));
  }

  lemma StoredOne(o: Output)
    ensures Stored([o]) == if !o.isNotSpent then []
                           else BE64(o.value) + BE64(|o.scriptPubKey| % TWO_64) + o.scriptPubKey
  {
    var s := SlotsOf([o]);
    assert s[1..] == [] && CoinsOf(s) == if o.isNotSpent then [Coin(o.value, o.scriptPubKey)] else [];
    if o.isNotSpent {
      var c := Coin(o.value, o.scriptPubKey);
      assert [c][1..] == [] && EncodeCoins([c]) == EncodeCoin(c);
      AppendAssoc(BE64(o.value), Len64(|o.scriptPubKey|), o.scriptPubKey);
    }
  }

  lemma {:induction false} StoredLengthIs(s: seq<Output>)
    ensures |Stored(s)| == StoredLength(s)
  {
    hide Stored, BE64;
    if |s| > 0 {
      var n := |s| - 1;
      StoredLengthIs(s[..n]);
      assert s == s[..n] + [s[n]];
      StoredConcat(s[..n], [s[n]]);
      StoredOne(s[n]);
    } else {
      StoredNone();
    }
  }

  lemma StoredNone()
    ensures Stored([]) == []
  {
  }

  /** Unspent output k stands behind the unspent ones before it: value, length of the script, script. */
  lemma StoredAt(s: seq<Output>, k: nat)
    requires k < |s| && s[k].isNotSpent
    ensures var o, from := s[k], StoredLength(s[..k]);
            var e := BE64(o.value) + BE64(|o.scriptPubKey| % TWO_64) + o.scriptPubKey;
            from + |e| <= |Stored(s)| && Stored(s)[from..from + |e|] == e
  {
    hide Stored, BE64;
    StoredOne(s[k]);
    StoredLengthIs(s[..k]);
    StoredSplit(s, k);
    Middle(Stored(s[..k]), Stored([s[k]]), Stored(s[k + 1..]));
  }

  lemma StoredSplit(s: seq<Output>, k: nat)
    requires k < |s|
    ensures Stored(s) == Stored(s[..k]) + (Stored([s[k]]) + Stored(s[k + 1..]))
  {
    hide Stored;
    Around(s, k);
    StoredConcat(s[..k], [s[k]] + s[k + 1..]);
    StoredConcat([s[k]], s[k + 1..]);
  }

  /** The record of a transaction: coinbase flag, height, count, a bit for every output, and the unspent outputs. */
  lemma RecordLayout(tx: Tx)
    ensures var m, n := EncodeRecord(RecordOf(tx)), |tx.outputs|;
            var k := 9 + (n + 7) / 8;
            && |m| == k + StoredLength(tx.outputs)
            && m[0] == (if tx.isCoinbase then 1 else 0)
            && m[1..5] == BE32(tx.blockHeight) && m[5..9] == BE32(n % TWO_32)
            && (forall i :: 0 <= i < n ==> (Bit(m[k - 1 - i / 8], i % 8) <==> tx.outputs[i].isNotSpent))
            && m[k..] == Stored(tx.outputs)
  {
    var r, n := RecordOf(tx), |tx.outputs|;
    var k := 9 + (n + 7) / 8;
    StoredLengthIs(tx.outputs);
    assert Len32(|r.slots|) == BE32(n % TWO_32);
    var m, packed, coins := EncodeRecord(r), PackBits(Unspent(r.slots)), EncodeCoins(CoinsOf(r.slots));
    assert |packed| == (n + 7) / 8 && coins == Stored(tx.outputs);
    hide PackBits, EncodeCoins, CoinsOf, Stored, BE32, Bit, Header;
    forall i | 0 <= i < n ensures Bit(m[k - 1 - i / 8], i % 8) <==> tx.outputs[i].isNotSpent {
      PackedBitPosition(Unspent(r.slots), i);
      assert m[k - 1 - i / 8] == packed[|packed| - 1 - i / 8];
    }
  }

  // ---- reading

  /** Long enough for the header, and for the flags that the header announces. */
  predicate HasHeader(m: bytes) {
    |m| >= 9
  }

  function ReadIsCoinbase(m: bytes): bool
    requires HasHeader(m)
  {
    m[0] == 1
  }

  function ReadBlockHeight(m: bytes): uint32
    requires HasHeader(m)
  {
    DeserializeUint32(m[1..5])
  }

  function ReadNoOfOutputs(m: bytes): uint32
    requires HasHeader(m)
  {
    DeserializeUint32(m[5..9])
  }

  predicate HasFlags(m: bytes) {
    HasHeader(m) && |m| >= 9 + BytesNeeded(ReadNoOfOutputs(m))
  }

  function Flags(m: bytes): (r: seq<bool>)
    requires HasFlags(m)
    ensures |r| == ReadNoOfOutputs(m)
  {
    var n := ReadNoOfOutputs(m);
    UnpackBits(m[9..9 + BytesNeeded(n)], n)
  }

  /** k consecutive coins at the front of s, and what follows them. */
  function DecodeCoins(s: bytes, k: nat): Option<(seq<Coin>, bytes)> {
    if k == 0 then Some(([], s))
    else if |s| < 16 || |s| < 16 + Value(s[8..16]) then None
    else
      var size := Value(s[8..16]);
      match DecodeCoins(s[16 + size..], k - 1)
      case None => None
      case Some((rest, tail)) => Some(([Coin(DeserializeUint64(s[..8]), s[16..16 + size])] + rest, tail))
  }

  /** The slots that the flags and the coins describe together. */
  function Scatter(flags: seq<bool>, coins: seq<Coin>): (r: Slots)
    requires |coins| == |TrueIndices(flags)|
    ensures |r| == |flags|
  {
    if |flags| == 0 then []
    else
      var front := flags[..|flags| - 1];
      if flags[|flags| - 1] then Scatter(front, coins[..|coins| - 1]) + [Some(coins[|coins| - 1])]
      else Scatter(front, coins) + [None]
  }

  lemma {:induction false} DecodeCoinsLength(s: bytes, k: nat)
    ensures DecodeCoins(s, k).Some? ==> |DecodeCoins(s, k).value.0| == k
  {
    if k > 0 && |s| >= 16 && |s| >= 16 + Value(s[8..16]) {
      DecodeCoinsLength(s[16 + Value(s[8..16])..], k - 1);
    }
  }

  /** The record that a byte string holds, if its announced parts are all there. */
  function DecodeRecord(m: bytes): Option<(Record, bytes)> {
    if !HasFlags(m) then None
    else
      var flags := Flags(m);
      var k := |TrueIndices(flags)|;
      match DecodeCoins(m[9 + BytesNeeded(|flags|)..], k)
      case None => None
      case Some((coins, tail)) =>
        DecodeCoinsLength(m[9 + BytesNeeded(|flags|)..], k);
        Some((Record(ReadIsCoinbase(m), ReadBlockHeight(m), Scatter(flags, coins)), tail))
  }

  /** Sizes that a machine holds. */
  predicate Storable(r: Record) {
    |r.slots| < TWO_32 && forall i :: 0 <= i < |r.slots| && r.slots[i].Some? ==> |r.slots[i].value.script| < TWO_64
  }

  predicate StorableCoins(s: seq<Coin>) {
    forall i :: 0 <= i < |s| ==> |s[i].script| < TWO_64
  }

  lemma DecodeOneCoin(c: Coin, tail: bytes)
    requires |c.script| < TWO_64
    ensures var s := EncodeCoin(c) + tail;
            && |s| >= 16 && s[..8] == BE64(c.value) && Value(s[8..16]) == |c.script| && |s| >= 16 + |c.script|
            && s[16..16 + |c.script|] == c.script && s[16 + |c.script|..] == tail
  {
    var s, l := EncodeCoin(c) + tail, Len64(|c.script|);
    assert s == BE64(c.value) + (l + (c.script + tail));
    assert s[8..16] == l;
  }

  lemma {:induction false} DecodeEncodedCoins(s: seq<Coin>, tail: bytes)
    requires StorableCoins(s)
    ensures DecodeCoins(EncodeCoins(s) + tail, |s|) == Some((s, tail))
  {
    if |s| == 0 {
      assert [] + tail == tail;
    } else {
      DecodeOneCoin(s[0], EncodeCoins(s[1..]) + tail);
      AppendAssoc(EncodeCoin(s[0]), EncodeCoins(s[1..]), tail);
      assert StorableCoins(s[1..]);
      DecodeEncodedCoins(s[1..], tail);
      assert [s[0]] + s[1..] == s;
    }
  }

  lemma {:induction false} ScatterCoins(s: Slots)
    ensures |CoinsOf(s)| == |TrueIndices(Unspent(s))|
    ensures Scatter(Unspent(s), CoinsOf(s)) == s
  {
    if |s| > 0 {
      var front, x := s[..|s| - 1], s[|s| - 1];
      assert s == front + [x];
      CoinsAppend(front, x);
      ScatterCoins(front);
      assert Unspent(s)[..|s| - 1] == Unspent(front);
      if x.Some? {
        assert CoinsOf(s)[..|CoinsOf(s)| - 1] == CoinsOf(front);
      } else {
        assert CoinsOf(s) == CoinsOf(front);
      }
    }
  }

  lemma {:induction false} CoinsStorable(s: Slots)
    requires forall i :: 0 <= i < |s| && s[i].Some? ==> |s[i].value.script| < TWO_64
    ensures StorableCoins(CoinsOf(s))
  {
    if |s| > 0 {
      CoinsStorable(s[1..]);
    }
  }

  /** What is written is read back: flag, height, count, flags, every unspent output in place, to the last byte. */
  lemma RecordRoundTrip(r: Record)
    requires Storable(r)
    ensures DecodeRecord(EncodeRecord(r)) == Some((r, []))
    ensures HasFlags(EncodeRecord(r)) && Flags(EncodeRecord(r)) == Unspent(r.slots)
  {
    var m, flags, coins := EncodeRecord(r), Unspent(r.slots), CoinsOf(r.slots);
    hide EncodeRecord, PackBits, UnpackBits, Scatter, DecodeCoins, EncodeCoins, CoinsOf, TrueIndices, Unspent, Value;
    EncodedParts(r);
    PackRoundTrip(flags);
    ScatterCoins(r.slots);
    CoinsStorable(r.slots);
    DecodeEncodedCoins(coins, []);
    assert EncodeCoins(coins) + [] == EncodeCoins(coins);
  }

  lemma EncodedParts(r: Record)
    requires Storable(r)
    ensures var m := EncodeRecord(r);
            && HasFlags(m) && ReadNoOfOutputs(m) == |r.slots|
            && ReadIsCoinbase(m) == r.isCoinbase && ReadBlockHeight(m) == r.blockHeight
            && m[9..9 + BytesNeeded(|r.slots|)] == PackBits(Unspent(r.slots))
            && m[9 + BytesNeeded(|r.slots|)..] == EncodeCoins(CoinsOf(r.slots))
  {
    var m, packed, coins := EncodeRecord(r), PackBits(Unspent(r.slots)), EncodeCoins(CoinsOf(r.slots));
    hide PackBits, EncodeCoins, CoinsOf, Value, BigEndian;
    assert m[..9] == Header(r);
    assert m[1..5] == Header(r)[1..5] && m[5..9] == Header(r)[5..9];
    assert m[9..] == packed + coins;
    assert m[9..9 + |packed|] == (packed + coins)[..|packed|];
    assert m[9 + |packed|..] == (packed + coins)[|packed|..];
  }

  lemma NoneTrue()
    ensures TrueIndices([]) == []
  {
  }

  /** Lines 39-55 of core/txmetadata_reader.go. */
  method ReadBitVector(m: bytes) returns (res: seq<bool>, vouts: seq<nat>)
    requires HasFlags(m)
    ensures res == Flags(m) && vouts == TrueIndices(res)
  {
    hide Bit, TrueIndices;
    var noOfOutputs := ReadNoOfOutputs(m);
    var sizeInBytes := BytesNeeded(noOfOutputs);
    assert TrueIndices([]) == [] by { NoneTrue(); }
    var bvec := m[9..9 + sizeInBytes];
    var bits := new bool[noOfOutputs](_ => false);
    vouts := [];
    for i := 0 to noOfOutputs
      invariant bits[..i] == Flags(m)[..i] && vouts == TrueIndices(bits[..i])
    {
      bits[i] := Bit(bvec[sizeInBytes - 1 - i / 8], i % 8);
      assert bits[..i + 1] == bits[..i] + [bits[i]];
      TrueIndicesNext(bits[..i], bits[i]);
      if bits[i] {
        vouts := vouts + [i];
      }
    }
    assert bits[..noOfOutputs] == bits[..] && Flags(m)[..noOfOutputs] == Flags(m);
    res := bits[..];
  }

  lemma {:induction false} ScatterUnspent(flags: seq<bool>, coins: seq<Coin>)
    requires |coins| == |TrueIndices(flags)|
    ensures Unspent(Scatter(flags, coins)) == flags
  {
    hide Scatter, TrueIndices;
    if |flags| > 0 {
      var n := |flags| - 1;
      ScatterStep(flags, coins);
      ScatterUnspent(flags[..n], if flags[n] then coins[..|coins| - 1] else coins);
      assert forall i :: 0 <= i < n ==> flags[..n][i] == flags[i];
    }
  }

  lemma ScatterStep(flags: seq<bool>, coins: seq<Coin>)
    requires |flags| > 0 && |coins| == |TrueIndices(flags)|
    ensures var n := |flags| - 1;
            var c := if flags[n] && |coins| > 0 then coins[..|coins| - 1] else coins;
            && (flags[n] ==> |coins| > 0) && |c| == |TrueIndices(flags[..n])|
            && Scatter(flags, coins) == Scatter(flags[..n], c) + [if flags[n] then Some(coins[|coins| - 1]) else None]
  {
  }

  lemma {:induction false} ScatterAt(flags: seq<bool>, coins: seq<Coin>)
    requires |coins| == |TrueIndices(flags)|
    ensures Unspent(Scatter(flags, coins)) == flags
    ensures forall i :: 0 <= i < |coins| ==> Scatter(flags, coins)[TrueIndices(flags)[i]] == Some(coins[i])
  {
    ScatterUnspent(flags, coins);
    hide Unspent;
    if |flags| > 0 {
      var n := |flags| - 1;
      ScatterAt(flags[..n], if flags[n] then coins[..|coins| - 1] else coins);
    }
  }

  /** The unspent outputs of a record, as transaction outputs, in order of their positions. */
  function OutputsOf(h: Hash, txid: bytes, slots: Slots): (r: seq<Output>)
    requires |slots| < TWO_32
    ensures |r| == |TrueIndices(Unspent(slots))|
    ensures forall i :: 0 <= i < |r| ==>
              var v := TrueIndices(Unspent(slots))[i];
              r[i] == NewTransactionOutput(h, txid, v, slots[v].value.value, slots[v].value.script)
  {
    var vouts := TrueIndices(Unspent(slots));
    seq(|vouts|, i requires 0 <= i < |vouts| =>
      NewTransactionOutput(h, txid, vouts[i], slots[vouts[i]].value.value, slots[vouts[i]].value.script))
  }

  lemma DecodedCoins(m: bytes)
    requires DecodeRecord(m).Some?
    ensures var flags := Flags(m);
            var slots := DecodeRecord(m).value.0.slots;
            var coins := DecodeCoins(m[9 + BytesNeeded(|flags|)..], |TrueIndices(flags)|);
            && coins.Some? && Unspent(slots) == flags && |coins.value.0| == |TrueIndices(flags)|
            && forall i :: 0 <= i < |coins.value.0| ==> slots[TrueIndices(flags)[i]] == Some(coins.value.0[i])
  {
    var flags := Flags(m);
    DecodeCoinsLength(m[9 + BytesNeeded(|flags|)..], |TrueIndices(flags)|);
    ScatterAt(flags, DecodeCoins(m[9 + BytesNeeded(|flags|)..], |TrueIndices(flags)|).value.0);
  }

  /** The positions that ReadOutputs goes by: the caller's, unless something is nil or the vector does not fit. */
  function Positions(m: bytes, notSpentVec: Option<seq<bool>>, vouts: Option<seq<uint32>>): (r: seq<nat>)
    requires HasFlags(m)
    ensures forall i :: 0 <= i < |r| ==> r[i] < TWO_32
  {
    if notSpentVec == None || vouts == None || |notSpentVec.value| != ReadNoOfOutputs(m) then TrueIndices(Flags(m))
    else vouts.value
  }

  /**
   Lines 56-79 of core/txmetadata_reader.go; None stands for nil.  The values and scripts behind the flags are read one
   for each position, whatever the positions are; for those of the record they are its unspent outputs.
   */
  method ReadOutputs(h: Hash, txid: bytes, m: bytes, notSpentVec: Option<seq<bool>>, vouts: Option<seq<uint32>>)
    returns (res: seq<Output>)
    requires HasFlags(m)
    requires DecodeCoins(m[9 + BytesNeeded(ReadNoOfOutputs(m))..], |Positions(m, notSpentVec, vouts)|).Some?
    ensures var p := Positions(m, notSpentVec, vouts);
            var coins := DecodeCoins(m[9 + BytesNeeded(ReadNoOfOutputs(m))..], |p|).value.0;
            && |res| == |p| == |coins|
            && forall i :: 0 <= i < |res| ==>
                 res[i] == NewTransactionOutput(h, txid, p[i], coins[i].value, coins[i].script)
    ensures DecodeRecord(m).Some? && Positions(m, notSpentVec, vouts) == TrueIndices(Flags(m)) ==>
              res == OutputsOf(h, txid, DecodeRecord(m).value.0.slots)
  {
    hide DecodeRecord, TrueIndices, Flags, DecodeCoins, OutputsOf, Unspent, NewTransactionOutput;
    var noOfOutputs := ReadNoOfOutputs(m);
    var positions: seq<nat> := [];
    if notSpentVec == None || vouts == None || |notSpentVec.value| != noOfOutputs {
      var bits;
      bits, positions := ReadBitVector(m);
    } else {
      positions := vouts.value;
    }
    assert positions == Positions(m, notSpentVec, vouts);
    res := ReadCoins(h, txid, m, positions, 9 + BytesNeeded(noOfOutputs));
    if DecodeRecord(m).Some? && positions == TrueIndices(Flags(m)) {
      RecordOutputs(h, txid, m, res);
    }
  }

  /** What ReadBitVector returned for a record fits it. */
  lemma OwnPositions(m: bytes, bits: seq<bool>, vouts: seq<nat>)
    requires DecodeRecord(m).Some? && bits == Flags(m) && vouts == TrueIndices(bits)
    ensures Positions(m, Some(bits), Some(vouts)) == TrueIndices(Flags(m))
    ensures DecodeCoins(m[9 + BytesNeeded(ReadNoOfOutputs(m))..], |Positions(m, Some(bits), Some(vouts))|).Some?
  {
    hide TrueIndices, Flags, DecodeCoins;
    DecodedCoins(m);
  }

  lemma RecordOutputs(h: Hash, txid: bytes, m: bytes, res: seq<Output>)
    requires DecodeRecord(m).Some? && |res| == |TrueIndices(Flags(m))|
    requires var p := TrueIndices(Flags(m));
             var coins := DecodeCoins(m[9 + BytesNeeded(ReadNoOfOutputs(m))..], |p|);
             coins.Some? && |coins.value.0| == |p| && forall i :: 0 <= i < |p| ==>
               && p[i] < TWO_32
               && res[i] == NewTransactionOutput(h, txid, p[i], coins.value.0[i].value, coins.value.0[i].script)
    ensures res == OutputsOf(h, txid, DecodeRecord(m).value.0.slots)
  {
    DecodedCoins(m);
    hide DecodeRecord, TrueIndices, Flags, DecodeCoins, OutputsOf, Unspent, NewTransactionOutput;
    var p := TrueIndices(Flags(m));
    var coins := DecodeCoins(m[9 + BytesNeeded(ReadNoOfOutputs(m))..], |p|).value.0;
    OutputsMatch(h, txid, DecodeRecord(m).value.0.slots, p, coins, res);
  }

  lemma OutputsMatch(h: Hash, txid: bytes, slots: Slots, vouts: seq<nat>, coins: seq<Coin>, res: seq<Output>)
    requires |slots| < TWO_32 && vouts == TrueIndices(Unspent(slots)) && |res| == |vouts| == |coins|
    requires forall i :: 0 <= i < |vouts| ==>
               && slots[vouts[i]] == Some(coins[i])
               && res[i] == NewTransactionOutput(h, txid, vouts[i], coins[i].value, coins[i].script)
    ensures res == OutputsOf(h, txid, slots)
  {
    hide TrueIndices, Unspent, NewTransactionOutput;
  }

  /** The caret loop of lines 66-74. */
  method ReadCoins(h: Hash, txid: bytes, m: bytes, vouts: seq<nat>, start: nat) returns (res: seq<Output>)
    requires start <= |m| && DecodeCoins(m[start..], |vouts|).Some?
    requires forall i :: 0 <= i < |vouts| ==> vouts[i] < TWO_32
    ensures var coins := DecodeCoins(m[start..], |vouts|).value.0;
            && |res| == |vouts| == |coins|
            && forall i :: 0 <= i < |res| ==>
                 res[i] == NewTransactionOutput(h, txid, vouts[i], coins[i].value, coins[i].script)
  {
    ghost var coins := DecodeCoins(m[start..], |vouts|).value.0;
    DecodeCoinsLength(m[start..], |vouts|);
    res := [];
    var caret: nat := start;
    hide DecodeCoins, NewTransactionOutput;
    assert coins[0..] == coins;
    for i := 0 to |vouts|
      invariant caret <= |m| && |res| == i <= |coins|
      invariant DecodeCoins(m[caret..], |vouts| - i).Some? && DecodeCoins(m[caret..], |vouts| - i).value.0 == coins[i..]
      invariant forall j :: 0 <= j < i ==>
                  res[j] == NewTransactionOutput(h, txid, vouts[j], coins[j].value, coins[j].script)
    {
      var val, scpub;
      val, scpub, caret := ReadCoin(m, caret, |vouts| - i);
      assert coins[i..][0] == Coin(val, scpub) && coins[i..][1..] == coins[i + 1..];
      res := res + [NewTransactionOutput(h, txid, vouts[i], val, scpub)];
    }
  }

  /** One value and one script, lines 67-73. */
  method ReadCoin(m: bytes, start: nat, ghost k: nat) returns (val: uint64, scpub: bytes, caret: nat)
    requires start <= |m| && k > 0 && DecodeCoins(m[start..], k).Some?
    ensures caret <= |m| && DecodeCoins(m[caret..], k - 1).Some?
    ensures DecodeCoins(m[start..], k).value.0 == [Coin(val, scpub)] + DecodeCoins(m[caret..], k - 1).value.0
  {
    hide DecodeCoins, Value;
    CaretStep(m, start, k);
    caret := start;
    val := DeserializeUint64(m[caret..caret + 8]);
    caret := caret + 8;
    var slen := DeserializeUint64(m[caret..caret + 8]);
    caret := caret + 8;
    scpub := m[caret..caret + slen];
    caret := caret + slen;
  }

  lemma CaretStep(m: bytes, caret: nat, k: nat)
    requires caret <= |m| && k > 0 && DecodeCoins(m[caret..], k).Some?
    ensures caret + 16 <= |m|
    ensures var size := Value(m[caret + 8..caret + 16]);
            && caret + 16 + size <= |m| && DecodeCoins(m[caret + 16 + size..], k - 1).Some?
            && DecodeCoins(m[caret..], k).value.0
               == [Coin(DeserializeUint64(m[caret..caret + 8]), m[caret + 16..caret + 16 + size])]
                  + DecodeCoins(m[caret + 16 + size..], k - 1).value.0
  {
    var s := m[caret..];
    assert s[..8] == m[caret..caret + 8] && s[8..16] == m[caret + 8..caret + 16];
    var size := Value(s[8..16]);
    assert s[16..16 + size] == m[caret + 16..caret + 16 + size] && s[16 + size..] == m[caret + 16 + size..];
  }
}
