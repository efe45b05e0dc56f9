/** db/chainstate.go: the unspent outputs, kept as one packed record for every transaction. */
module Chainstates {
  import opened Bytes
  import opened Serializer
  import opened Transactions
  import opened TxMetadata
  import opened DbWrapper

  const TX_KEY: byte := 0x63  // 'c'

  type Records = map<bytes, Record>

  predicate HasUnspent(s: Slots) {
    exists i :: 0 <= i < |s| && s[i].Some?
  }

  /** The plain map that the records stand for. */
  function Lookup(rs: Records, txid: bytes, vout: nat): Option<Coin> {
    if txid in rs && vout < |rs[txid].slots| then rs[txid].slots[vout] else None
  }

  ghost function Points(rs: Records): (r: set<(bytes, nat)>)
    ensures forall t: bytes, v: nat :: (t, v) in r <==> Lookup(rs, t, v).Some?
  {
    set t, v: nat | t in rs && 0 <= v < |rs[t].slots| && rs[t].slots[v].Some? :: (t, v)
  }

  ghost function Plain(rs: Records): (m: map<(bytes, nat), Coin>)
    ensures forall t: bytes, v: nat :: (t, v) in m <==> Lookup(rs, t, v).Some?
    ensures forall t: bytes, v: nat :: (t, v) in m ==> m[(t, v)] == Lookup(rs, t, v).value
  {
    map p | p in Points(rs) :: Lookup(rs, p.0, p.1).value
  }

  /** Taking one entry out; a record without unspent outputs disappears. */
  function Spend(rs: Records, txid: bytes, vout: nat): Records {
    if Lookup(rs, txid, vout).None? then rs
    else
      var slots := rs[txid].slots[vout := None];
      if HasUnspent(slots) then rs[txid := Record(false, 0, slots)] else rs - {txid}
  }

  /** On the plain map, spending removes the one entry and nothing else. */
  lemma SpendPlain(rs: Records, txid: bytes, vout: nat)
    ensures Plain(Spend(rs, txid, vout)) == Plain(rs) - {(txid, vout)}
  {
    var s := Spend(rs, txid, vout);
    forall t: bytes, v: nat ensures Lookup(s, t, v) == if (t, v) == (txid, vout) then None else Lookup(rs, t, v) {
      if t == txid && Lookup(rs, txid, vout).Some? && txid !in s && v < |rs[t].slots| && v != vout {
        assert rs[t].slots[vout := None][v] == rs[t].slots[v];
      }
    }
  }

  /** The entries of one transaction in the plain map. */
  ghost function EntriesOf(rs: Records, txid: bytes): set<(bytes, nat)> {
    set p | p in Plain(rs) && p.0 == txid
  }

  /** These positions of one transaction. */
  ghost function Places(txid: bytes, s: seq<nat>): (r: set<(bytes, nat)>)
    ensures forall p :: p in r <==> p.0 == txid && p.1 in s
  {
    if |s| == 0 then {} else Places(txid, s[..|s| - 1]) + {(txid, s[|s| - 1])}
  }

  lemma {:induction false} PlacesCount(txid: bytes, s: seq<nat>)
    requires forall i, j :: 0 <= i < j < |s| ==> s[i] < s[j]
    ensures |Places(txid, s)| == |s|
  {
    if |s| > 0 {
      var n := |s| - 1;
      PlacesCount(txid, s[..n]);
      assert (txid, s[n]) !in Places(txid, s[..n]);
    }
  }

  /** The flags of a record count its entries in the plain map. */
  lemma CountEntries(rs: Records, txid: bytes)
    requires txid in rs
    ensures |EntriesOf(rs, txid)| == |TrueIndices(Unspent(rs[txid].slots))|
    ensures HasUnspent(rs[txid].slots) ==> EntriesOf(rs, txid) != {}
  {
    var slots := rs[txid].slots;
    var vouts := TrueIndices(Unspent(slots));
    PlacesCount(txid, vouts);
    hide Places, TrueIndices;
    forall p ensures p in EntriesOf(rs, txid) <==> p in Places(txid, vouts) {
      assert p.1 < |slots| && slots[p.1].Some? ==> Unspent(slots)[p.1];
    }
    assert EntriesOf(rs, txid) == Places(txid, vouts);
    if HasUnspent(slots) {
      var i :| 0 <= i < |slots| && slots[i].Some?;
      assert (txid, i) in EntriesOf(rs, txid);
    }
  }

  /** The pending puts of a batch, applied in order. */
  function PutAll(rs: Records, b: seq<(bytes, Record)>): Records {
    if |b| == 0 then rs else PutAll(rs, b[..|b| - 1])[b[|b| - 1].0 := b[|b| - 1].1]
  }

  ghost function Encoded(b: seq<(bytes, Record)>): (r: Batch)
    ensures |r| == |b|
    ensures forall i :: 0 <= i < |r| ==> r[i] == (BuildKey(TX_KEY, b[i].0), EncodeRecord(b[i].1))
  {
    seq(|b|, i requires 0 <= i < |b| => (BuildKey(TX_KEY, b[i].0), EncodeRecord(b[i].1)))
  }

  /** What the last put under an identifier stores. */
  ghost function LastPut(b: seq<(bytes, Record)>, t: bytes): Option<Record> {
    if |b| == 0 then None else if b[|b| - 1].0 == t then Some(b[|b| - 1].1) else LastPut(b[..|b| - 1], t)
  }

  lemma {:induction false} LastPutIn(b: seq<(bytes, Record)>, t: bytes)
    ensures LastPut(b, t).Some? ==> exists i :: 0 <= i < |b| && b[i] == (t, LastPut(b, t).value)
  {
    if |b| > 0 && b[|b| - 1].0 != t {
      var front := b[..|b| - 1];
      LastPutIn(front, t);
      assert forall i :: 0 <= i < |front| ==> front[i] == b[i];
    } else if |b| > 0 {
      assert b[|b| - 1] == (t, LastPut(b, t).value);
    }
  }

  lemma {:induction false} LastPutOnce(b: seq<(bytes, Record)>, i: nat)
    requires i < |b| && forall j :: i < j < |b| ==> b[j].0 != b[i].0
    ensures LastPut(b, b[i].0) == Some(b[i].1)
  {
    if i < |b| - 1 {
      LastPutOnce(b[..|b| - 1], i);
    }
  }

  lemma {:induction false} PutAllLast(rs: Records, b: seq<(bytes, Record)>, t: bytes)
    ensures t in PutAll(rs, b) <==> t in rs || LastPut(b, t).Some?
    ensures t in PutAll(rs, b) ==> PutAll(rs, b)[t] == if LastPut(b, t).Some? then LastPut(b, t).value else rs[t]
  {
    if |b| > 0 {
      PutAllLast(rs, b[..|b| - 1], t);
    }
  }

  predicate Keepable(r: Record) {
    Storable(r) && HasUnspent(r.slots)
  }

  /** A database holds exactly these records, each with an unspent output. */
  ghost predicate Holding(isObfuscated: bool, obfuscationKey: bytes, store: Store, rs: Records)
    requires |obfuscationKey| > 0
  {
    forall t: bytes :: HoldsIn(isObfuscated, obfuscationKey, store, rs, t)
  }

  ghost predicate HoldsIn(isObfuscated: bool, obfuscationKey: bytes, store: Store, rs: Records, t: bytes)
    requires |obfuscationKey| > 0
  {
    var k := BuildKey(TX_KEY, t);
    if t in rs then
      && Keepable(rs[t]) && k in store
      && MaskedUnder(isObfuscated, obfuscationKey, store[k]) == EncodeRecord(rs[t])
    else k !in store
  }

  class Chainstate {
    const db: DBwrapper
    ghost var records: Records
    ghost var pending: seq<(bytes, Record)>

    /** The store and the records agree on one transaction, and its record has an unspent output. */
    ghost predicate Holds(rs: Records, txid: bytes)
      requires db.Valid()
      reads db`store
    {
      if txid in rs then Keepable(rs[txid]) && db.Look(BuildKey(TX_KEY, txid)) == Some(EncodeRecord(rs[txid]))
      else db.Look(BuildKey(TX_KEY, txid)) == None
    }

    ghost predicate Valid()
      reads this, db
    {
      && db.Valid()
      && (forall t: bytes :: Holds(records, t))
      && (forall i :: 0 <= i < |pending| ==> Keepable(pending[i].1))
      && db.Pending() == Encoded(pending)
    }

    /** Lines 26-28: the database at the path is opened with whatever it holds, a good state if these are records. */
    constructor (isObfuscated: bool, obfuscationKey: bytes, store: Store, ghost records: Records)
      requires |obfuscationKey| > 0
      ensures Valid() <==> Holding(isObfuscated, obfuscationKey, store, records)
      ensures fresh(db) && db.store == store && this.records == records && pending == []
      ensures db.isObfuscated == isObfuscated && db.obfuscationKey == obfuscationKey
    {
      db := new DBwrapper(isObfuscated, obfuscationKey, store);
      this.records, pending := records, [];
      new;
      hide EncodeRecord, BuildKey, Keepable, MaskedUnder;
      assert Valid() <==> forall t: bytes :: Holds(this.records, t);
      if Valid() {
        forall t: bytes ensures HoldsIn(isObfuscated, obfuscationKey, store, records, t) {
          assert Holds(records, t);
        }
      } else if Holding(isObfuscated, obfuscationKey, store, records) {
        forall t: bytes ensures Holds(records, t) {
          assert HoldsIn(isObfuscated, obfuscationKey, store, records, t);
        }
      }
    }

    method IsSpent(tx: Tx) returns (spent: bool)
      ensures spent <==> !HasUnspent(SlotsOf(tx.outputs))
      ensures spent <==> forall v :: 0 <= v < |tx.outputs| ==> !tx.outputs[v].isNotSpent
    {
      for i := 0 to |tx.outputs|
        invariant forall j :: 0 <= j < i ==> SlotsOf(tx.outputs)[j].None?
      {
        if tx.outputs[i].isNotSpent {
          assert SlotsOf(tx.outputs)[i].Some?;
          return false;
        }
      }
      return true;
    }

    lemma KeysDiffer(s: bytes, t: bytes)
      ensures BuildKey(TX_KEY, s) == BuildKey(TX_KEY, t) ==> s == t
    {
      assert BuildKey(TX_KEY, s)[1..] == s && BuildKey(TX_KEY, t)[1..] == t;
    }

    /** One put into the store, on the side of the records too. */
    method Put(txid: bytes, m: bytes, ghost r: Record)
      requires Valid() && Keepable(r) && m == EncodeRecord(r)
      modifies this`records, db`store
      ensures Valid() && records == old(records)[txid := r]
    {
      hide EncodeRecord, BuildKey, Keepable;
      db.Insert(BuildKey(TX_KEY, txid), m);
      records := records[txid := r];
      forall t: bytes ensures Holds(records, t) {
        KeysDiffer(txid, t);
        assert old(Holds(records, t));
      }
    }

    /** Lines 51-53. */
    method RemoveTX(txid: bytes)
      requires Valid()
      modifies this`records, db`store
      ensures Valid() && records == old(records) - {txid}
    {
      hide EncodeRecord, BuildKey, Keepable;
      db.Remove(BuildKey(TX_KEY, txid));
      records := records - {txid};
      forall t: bytes ensures Holds(records, t) {
        KeysDiffer(txid, t);
        assert old(Holds(records, t));
      }
    }

    /** Lines 30-36; true is ErrSpentTX. */
    method InsertTX(tx: Tx) returns (err: bool)
      requires Valid() && Storable(RecordOf(tx))
      modifies this`records, db`store
      ensures Valid()
      ensures err <==> !HasUnspent(RecordOf(tx).slots)
      ensures err <==> forall v :: 0 <= v < |tx.outputs| ==> !tx.outputs[v].isNotSpent
      ensures records == if err then old(records) else old(records)[tx.txid := RecordOf(tx)]
      ensures !err ==> db.Look([0x63] + tx.txid) == Some(EncodeRecord(RecordOf(tx)))
      ensures !err ==> forall v: nat ::
                Lookup(records, tx.txid, v)
                == if v < |tx.outputs| && tx.outputs[v].isNotSpent then
                     Some(Coin(tx.outputs[v].value, tx.outputs[v].scriptPubKey))
                   else None
    {
      err := IsSpent(tx);
      if !err {
        var m := SerializeTXMetadata(tx);
        Put(tx.txid, m, RecordOf(tx));
        assert Holds(records, tx.txid) && BuildKey(TX_KEY, tx.txid) == [0x63] + tx.txid;
      }
    }

    /** Lines 55-57. */
    method GetTX(txid: bytes) returns (m: Option<bytes>)
      requires Valid()
      ensures m == if txid in records then Some(EncodeRecord(records[txid])) else None
      ensures txid in records ==> Keepable(records[txid])
    {
      hide EncodeRecord, BuildKey, Keepable;
      assert Holds(records, txid);
      m := db.Get(BuildKey(TX_KEY, txid));
    }

    /** Lines 72-85. */
    method GetUtxo(h: Hash, txid: bytes, vout: nat) returns (r: Option<Output>)
      requires Valid() && vout < TWO_32
      ensures r == match Lookup(records, txid, vout)
                   case None => None
                   case Some(c) => Some(NewTransactionOutput(h, txid, vout, c.value, c.script))
      ensures r == match Lookup(records, txid, vout)
                   case None => None
                   case Some(c) => Some(Output(txid, vout, c.value, c.script, h(h(txid + BE32(vout))), true))
    {
      hide Valid, Holds, EncodeRecord, DecodeRecord, DecodeCoins, Positions, NewTransactionOutput, TrueIndices, Flags;
      var m := GetTX(txid);
      if m == None {
        return None;
      }
      ghost var slots := records[txid].slots;
      RecordRoundTrip(records[txid]);
      if vout < |slots| && slots[vout].Some? {
        NewOutputFields(h, txid, vout, slots[vout].value.value, slots[vout].value.script);
      }
      var bv, vouts := ReadBitVector(m.value);
      assert vout < |slots| && slots[vout].Some? ==> Unspent(slots)[vout] && vout in vouts;
      for i := 0 to |vouts|
        invariant forall j :: 0 <= j < i ==> vouts[j] != vout
      {
        if vouts[i] == vout {
          OwnPositions(m.value, bv, vouts);
          var outs := ReadOutputs(h, txid, m.value, Some(bv), Some(vouts));
          return Some(outs[i]);
        }
      }
      return None;
    }

    /** Lines 133-141. */
    method GetNoOfUTXOs(txid: bytes) returns (r: Option<nat>)
      requires Valid()
      ensures r == None <==> EntriesOf(records, txid) == {}
      ensures r.Some? ==> r.value == |EntriesOf(records, txid)|
    {
      hide EncodeRecord, TrueIndices, Flags;
      var m := GetTX(txid);
      if m == None {
        return None;
      }
      RecordRoundTrip(records[txid]);
      CountEntries(records, txid);
      var bv, vouts := ReadBitVector(m.value);
      return Some(|vouts|);
    }

    /**
     Lines 87-131: decode, drop one output, re-encode.  The answer says whether the entry was there; nothing else
     leaves the map.
     */
    method RemoveUtxo(h: Hash, txid: bytes, vout: nat) returns (ok: bool)
      requires Valid() && vout < TWO_32
      modifies this`records, db`store
      ensures Valid()
      ensures ok <==> Lookup(old(records), txid, vout).Some?
      ensures records == Spend(old(records), txid, vout)
      ensures ok && txid in records ==> !records[txid].isCoinbase && records[txid].blockHeight == 0
    {
      hide Valid, EncodeRecord, DecodeRecord, DecodeCoins, Positions, NewTransactionOutput, TrueIndices, Flags, Unspent;
      var m := GetTX(txid);
      if m == None {
        return false;
      }
      ghost var slots := records[txid].slots;
      RecordRoundTrip(records[txid]);
      var bv, vouts := ReadBitVector(m.value);
      LastUnspent(slots, vout);
      if |vouts| == 1 && vouts[0] == vout {
        RemoveTX(txid);
        return true;
      }
      if vout >= |bv| || !bv[vout] {
        return false;
      }
      OwnPositions(m.value, bv, vouts);
      var outs := ReadOutputs(h, txid, m.value, Some(bv), Some(vouts));
      var fakeouts := FakeOutputs(h, txid, outs, vout, ReadNoOfOutputs(m.value), slots);
      var fake := NewTransaction(h, [], fakeouts);
      TiedSlots(h, fake.txid, fakeouts);
      var newmeta := SerializeTXMetadata(fake);
      Put(txid, newmeta, Record(false, 0, slots[vout := None]));
      return true;
    }

    /** Lines 38-45; true is ErrSpentTX. */
    method InsertBatchTX(tx: Tx) returns (err: bool)
      requires Valid() && Storable(RecordOf(tx))
      modifies this`pending, db`currentBatch
      ensures Valid()
      ensures err <==> !HasUnspent(RecordOf(tx).slots)
      ensures err <==> forall v :: 0 <= v < |tx.outputs| ==> !tx.outputs[v].isNotSpent
      ensures pending == if err then old(pending) else old(pending) + [(tx.txid, RecordOf(tx))]
    {
      hide EncodeRecord, BuildKey, Storable;
      err := IsSpent(tx);
      if !err {
        var m := SerializeTXMetadata(tx);
        db.PutInBatch(BuildKey(TX_KEY, tx.txid), m);
        pending := pending + [(tx.txid, RecordOf(tx))];
        assert forall t: bytes :: old(Holds(records, t)) ==> Holds(records, t);
      }
    }

    /** What the store answers for a transaction once a batch of puts is written over these records. */
    ghost function Answer(rs: Records, b: seq<(bytes, Record)>, t: bytes): Option<bytes>
      requires db.Valid()
    {
      match LastPut(b, t)
      case Some(r) => Some(db.Masked(EncodeRecord(r)))
      case None => if t in rs then Some(EncodeRecord(rs[t])) else None
    }

    /** What GetTX reads for a transaction. */
    ghost function Read(t: bytes): Option<bytes>
      requires db.Valid()
      reads db`store
    {
      db.Look(BuildKey(TX_KEY, t))
    }

    ghost predicate Answers(rs: Records, b: seq<(bytes, Record)>)
      requires db.Valid()
      reads db`store
    {
      forall t: bytes :: Read(t) == Answer(rs, b, t)
    }

    /** The mask does not show on the last put under any identifier. */
    ghost predicate ReadsBack(b: seq<(bytes, Record)>)
      requires db.Valid()
    {
      forall t: bytes :: LastPut(b, t).Some? ==> db.Transparent(EncodeRecord(LastPut(b, t).value))
    }

    /**
     Lines 47-49.  The batch holds unmasked bytes that Get will unmask, so what is read afterwards under a put
     identifier is the record masked; the state is good exactly if the mask does not show on what was put, which for
     keys of at most nine bytes means a store without obfuscation or a key of zeros.
     */
    method WriteBatchTX()
      requires Valid()
      modifies this`records, this`pending, db`store, db`currentBatch
      ensures pending == [] && records == PutAll(old(records), old(pending))
      ensures Answers(old(records), old(pending))
      ensures Valid() <==> ReadsBack(old(pending))
      ensures |db.obfuscationKey| <= 9 ==> (Valid() <==> old(pending) == [] || db.Clear())
    {
      hide EncodeRecord, BuildKey, Keepable, MaskedUnder, LastPut, PutAll, ApplyBatch;
      ghost var rs, b := records, pending;
      forall t | t in rs ensures Keepable(rs[t]) {
        assert Holds(rs, t);
      }
      db.WriteBatch();
      records, pending := PutAll(records, pending), [];
      forall t: bytes ensures Read(t) == Answer(rs, b, t) {
        assert old(Holds(records, t));
        BatchLast(old(db.store), b, t);
      }
      StillValid(rs, b);
      if |db.obfuscationKey| <= 9 {
        ReadsBackClear(b);
      }
    }

    lemma {:induction false} BatchLast(s: Store, b: seq<(bytes, Record)>, t: bytes)
      ensures var k, s' := BuildKey(TX_KEY, t), ApplyBatch(s, Encoded(b));
              match LastPut(b, t)
              case Some(r) => k in s' && s'[k] == EncodeRecord(r)
              case None => if k in s then k in s' && s'[k] == s[k] else k !in s'
    {
      hide EncodeRecord, BuildKey;
      if |b| > 0 {
        var n := |b| - 1;
        BatchLast(s, b[..n], t);
        assert Encoded(b)[..n] == Encoded(b[..n]);
        KeysDiffer(b[n].0, t);
      }
    }

    /** Under a generated key that does not start with zero, whatever was put last reads back wrong. */
    lemma MaskedAnswer(rs: Records, b: seq<(bytes, Record)>, t: bytes)
      requires db.Valid() && db.isObfuscated && |db.obfuscationKey| == 8 && db.obfuscationKey[0] != 0
      requires Answers(rs, b) && LastPut(b, t).Some?
      ensures Read(t).Some? && Read(t) != Some(EncodeRecord(LastPut(b, t).value))
    {
      hide EncodeRecord, LastPut, Read;
      var m := EncodeRecord(LastPut(b, t).value);
      RecordLength(LastPut(b, t).value);
      db.MaskedFixed(m);
      db.TransparentClear(m);
      assert Read(t) == Answer(rs, b, t);
    }

    /** What the store answers is what the records say exactly if the mask does not show. */
    lemma StillValid(rs: Records, b: seq<(bytes, Record)>)
      requires db.Valid() && Answers(rs, b) && records == PutAll(rs, b) && pending == [] && db.Pending() == []
      requires forall t :: t in rs ==> Keepable(rs[t])
      requires forall i :: 0 <= i < |b| ==> Keepable(b[i].1)
      ensures Valid() <==> ReadsBack(b)
    {
      hide EncodeRecord, BuildKey, Keepable, LastPut, PutAll, MaskedUnder, DBwrapper.Transparent;
      forall t: bytes
        ensures Holds(records, t)
           <==> (LastPut(b, t).Some? ==> db.Transparent(EncodeRecord(LastPut(b, t).value)))
      {
        PutAllLast(rs, b, t);
        LastPutIn(b, t);
        assert Read(t) == Answer(rs, b, t);
        if LastPut(b, t).Some? {
          db.MaskedFixed(EncodeRecord(LastPut(b, t).value));
        }
      }
    }

    /** A record fills at least the nine bytes of its header, so a shorter key shows on every record or on none. */
    lemma ReadsBackClear(b: seq<(bytes, Record)>)
      requires db.Valid() && |db.obfuscationKey| <= 9
      ensures ReadsBack(b) <==> b == [] || db.Clear()
    {
      hide EncodeRecord;
      forall t: bytes | LastPut(b, t).Some?
        ensures db.Transparent(EncodeRecord(LastPut(b, t).value)) <==> db.Clear()
      {
        RecordLength(LastPut(b, t).value);
        db.TransparentClear(EncodeRecord(LastPut(b, t).value));
      }
      if b != [] {
        assert LastPut(b, b[|b| - 1].0).Some?;
      }
    }
  }

  lemma RecordLength(r: Record)
    ensures |EncodeRecord(r)| >= 9
  {
  }

  lemma TiedSlots(h: Hash, txid: bytes, outputs: seq<Output>)
    ensures SlotsOf(TieOutputs(h, txid, outputs)) == SlotsOf(outputs)
  {
  }

  /** The branch of lines 101-103 is the one in which the record disappears. */
  lemma LastUnspent(s: Slots, vout: nat)
    ensures var vouts := TrueIndices(Unspent(s));
            && (|vouts| == 1 && vouts[0] == vout ==> vout < |s| && s[vout].Some? && !HasUnspent(s[vout := None]))
            && (vout < |s| && s[vout].Some? && !(|vouts| == 1 && vouts[0] == vout) ==> HasUnspent(s[vout := None]))
  {
    var vouts := TrueIndices(Unspent(s));
    if |vouts| == 1 && vouts[0] == vout {
      var t := s[vout := None];
      forall i | 0 <= i < |s| ensures t[i].None? {
        if s[i].Some? {
          assert Unspent(s)[i];
        }
      }
    } else if vout < |s| && s[vout].Some? {
      assert Unspent(s)[vout];
      var k := if vouts[0] == vout then 1 else 0;
      assert s[vout := None][vouts[k]].Some?;
    }
  }

  /** The unspent outputs of a record sit at their positions. */
  predicate InPlace(outs: seq<Output>, slots: Slots) {
    forall k :: 0 <= k < |outs| ==>
      outs[k].vout < |slots| && slots[outs[k].vout].Some? && SlotOf(outs[k]) == slots[outs[k].vout]
  }

  /** Lines 111-120: the remaining unspent outputs go where they were. */
  method PlaceOutputs(outs: seq<Output>, vout: nat, n: nat, ghost slots: Slots) returns (placed: array<Option<Output>>)
    requires |slots| == n && InPlace(outs, slots)
    ensures placed.Length == n && fresh(placed)
    ensures forall v :: 0 <= v < n && placed[v].Some? ==>
              v != vout && slots[v].Some? && SlotOf(placed[v].value) == slots[v]
    ensures forall j :: 0 <= j < |outs| && outs[j].vout != vout ==> placed[outs[j].vout].Some?
  {
    hide SlotOf;
    placed := new Option<Output>[n](_ => None);
    for k := 0 to |outs|
      invariant forall v :: 0 <= v < n && placed[v].Some? ==>
                  v != vout && slots[v].Some? && SlotOf(placed[v].value) == slots[v]
      invariant forall j :: 0 <= j < k && outs[j].vout != vout ==> placed[outs[j].vout].Some?
    {
      if outs[k].vout != vout {
        placed[outs[k].vout] := Some(outs[k]);
      }
    }
  }

  lemma OutputFacts(h: Hash, txid: bytes, slots: Slots)
    requires |slots| < TWO_32
    ensures var outs, vouts := OutputsOf(h, txid, slots), TrueIndices(Unspent(slots));
            InPlace(outs, slots) && |outs| == |vouts| && forall k :: 0 <= k < |outs| ==> outs[k].vout == vouts[k]
  {
  }

  predicate Placed(o: Option<Output>, slots: Slots, vout: nat, v: nat)
    requires v < |slots|
  {
    if v == vout || slots[v].None? then o == None else o.Some? && SlotOf(o.value) == slots[v]
  }

  lemma AllPlaced(h: Hash, txid: bytes, placed: seq<Option<Output>>, slots: Slots, vout: nat)
    requires |placed| == |slots| < TWO_32
    requires forall v :: 0 <= v < |placed| && placed[v].Some? ==>
               v != vout && slots[v].Some? && SlotOf(placed[v].value) == slots[v]
    requires var outs := OutputsOf(h, txid, slots);
             forall j :: 0 <= j < |outs| && outs[j].vout != vout ==>
               outs[j].vout < |placed| && placed[outs[j].vout].Some?
    ensures forall v :: 0 <= v < |slots| ==> Placed(placed[v], slots, vout, v)
  {
    hide SlotOf;
    var outs, vouts := OutputsOf(h, txid, slots), TrueIndices(Unspent(slots));
    OutputFacts(h, txid, slots);
    hide OutputsOf, InPlace;
    forall v | 0 <= v < |slots| ensures Placed(placed[v], slots, vout, v) {
      if slots[v].Some? {
        assert Unspent(slots)[v];
        var j :| 0 <= j < |vouts| && vouts[j] == v;
        assert outs[j].vout == v;
      }
    }
  }

  lemma PlacedSlot(p: Option<Output>, dummy: Output, slots: Slots, vout: nat, v: nat)
    requires vout < |slots| && v < |slots| && Placed(p, slots, vout, v) && !dummy.isNotSpent
    ensures SlotOf(if p.Some? then p.value else dummy) == slots[vout := None][v]
  {
  }

  /** Lines 111-127: dummies marked as spent fill the other positions. */
  method FakeOutputs(h: Hash, txid: bytes, outs: seq<Output>, vout: nat, n: nat, ghost slots: Slots)
    returns (fakeouts: seq<Output>)
    requires |slots| == n < TWO_32 && vout < n
    requires outs == OutputsOf(h, txid, slots)
    ensures SlotsOf(fakeouts) == slots[vout := None]
  {
    OutputFacts(h, txid, slots);
    hide OutputId, TrueIndices, Unspent, OutputsOf, InPlace, SlotOf, Placed;
    var placed := PlaceOutputs(outs, vout, n, slots);
    AllPlaced(h, txid, placed[..], slots, vout);
    assert forall v :: 0 <= v < n ==> placed[..][v] == placed[v];
    fakeouts := FillDummies(h, placed, vout, slots);
  }

  /** Lines 122-127. */
  method FillDummies(h: Hash, placed: array<Option<Output>>, ghost vout: nat, ghost slots: Slots)
    returns (fakeouts: seq<Output>)
    requires placed.Length == |slots| && vout < |slots|
    requires forall v :: 0 <= v < |slots| ==> Placed(placed[v], slots, vout, v)
    ensures SlotsOf(fakeouts) == slots[vout := None]
  {
    hide OutputId, SlotOf, Placed, TrueIndices, Unspent;
    fakeouts := [];
    for v := 0 to placed.Length
      invariant |fakeouts| == v && forall j :: 0 <= j < v ==> SlotOf(fakeouts[j]) == slots[vout := None][j]
    {
      var dummy := NewTransactionOutput(h, [], 0, 0, []).(isNotSpent := false);
      PlacedSlot(placed[v], dummy, slots, vout, v);
      fakeouts := fakeouts + [if placed[v].Some? then placed[v].value else dummy];
    }
  }
}
