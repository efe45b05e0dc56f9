/** core/transaction.go and core/transaction_output.go: the entities, as values, and their byte form. */
module Transactions {
  import opened Bytes

  datatype Output = Output(
    parentTXID: bytes, vout: uint32, value: uint64, scriptPubKey: bytes, outputID: bytes, isNotSpent: bool)

  datatype Input = Input(outputReferred: Output, scriptSig: bytes)

  datatype Tx = Tx(txid: bytes, blockHeight: uint32, isCoinbase: bool, inputs: seq<Input>, outputs: seq<Output>)

  /** Sums without wrapping; the source adds in 64 bits. */
  function SumInputs(inputs: seq<Input>): nat {
    if |inputs| == 0 then 0 else SumInputs(inputs[..|inputs| - 1]) + inputs[|inputs| - 1].outputReferred.value
  }

  function SumOutputs(outputs: seq<Output>): nat {
    if |outputs| == 0 then 0 else SumOutputs(outputs[..|outputs| - 1]) + outputs[|outputs| - 1].value
  }

  /** GetFees: an unsigned difference of two unsigned sums. */
  function Fees(tx: Tx): uint64 {
    (SumInputs(tx.inputs) - SumOutputs(tx.outputs)) % TWO_64
  }

  /** The loop over inputs of lines 361-363, and of lines 243-266. */
  method AddInputs(inputs: seq<Input>) returns (inputValue: uint64)
    ensures inputValue == SumInputs(inputs) % TWO_64
  {
    inputValue := 0;
    for i := 0 to |inputs|
      invariant inputValue == SumInputs(inputs[..i]) % TWO_64
    {
      assert inputs[..i + 1][..i] == inputs[..i];
      AddModulo(SumInputs(inputs[..i]), inputs[i].outputReferred.value);
      inputValue := (inputValue + inputs[i].outputReferred.value) % TWO_64;
    }
    assert inputs[..|inputs|] == inputs;
  }

  /** The loop over outputs of lines 364-366, and of core/block.go, lines 291-293. */
  method AddValues(outputs: seq<Output>) returns (outputValue: uint64)
    ensures outputValue == SumOutputs(outputs) % TWO_64
  {
    outputValue := 0;
    for i := 0 to |outputs|
      invariant outputValue == SumOutputs(outputs[..i]) % TWO_64
    {
      assert outputs[..i + 1][..i] == outputs[..i];
      AddModulo(SumOutputs(outputs[..i]), outputs[i].value);
      outputValue := (outputValue + outputs[i].value) % TWO_64;
    }
    assert outputs[..|outputs|] == outputs;
  }

  /** Lines 358-368. */
  method GetFees(tx: Tx) returns (fee: uint64)
    ensures fee == Fees(tx)
  {
    var inputValue := AddInputs(tx.inputs);
    var outputValue := AddValues(tx.outputs);
    SubModulo(SumInputs(tx.inputs), SumOutputs(tx.outputs));
    fee := (inputValue - outputValue) % TWO_64;
  }

  // ---- outputs

  function OutputId(h: Hash, parent: bytes, vout: uint32): bytes {
    DoubleHash(h, parent + BE32(vout))
  }

  /** Two entries with one identifier are one entry, or their hashed bytes collide. */
  lemma OutputIdBinding(h: Hash, p: bytes, v: uint32, q: bytes, w: uint32)
    requires |p| == |q| && OutputId(h, p, v) == OutputId(h, q, w)
    ensures (p == q && v == w) || Collision(h, p + BE32(v), q + BE32(w))
  {
    if p + BE32(v) == q + BE32(w) {
      SplitEqual(p, q, BE32(v), BE32(w));
      assert Value(BE32(v)) == Value(BE32(w));
    }
  }

  function NewTransactionOutput(h: Hash, parent: bytes, vout: uint32, value: uint64, script: bytes): Output {
    Output(parent, vout, value, script, OutputId(h, parent, vout), true)
  }

  lemma NewOutputFields(h: Hash, parent: bytes, vout: uint32, value: uint64, script: bytes)
    ensures NewTransactionOutput(h, parent, vout, value, script)
         == Output(parent, vout, value, script, h(h(parent + BE32(vout))), true)
  {
  }

  /** TransactionOutput.Equal: parent and vout are compared through the identifier only. */
  predicate SameOutput(a: Output, b: Output) {
    a.outputID == b.outputID && a.value == b.value && a.isNotSpent == b.isNotSpent && a.scriptPubKey == b.scriptPubKey
  }

  // ---- bytes

  /** A Go length, converted to an unsigned integer of 32 or 64 bits. */
  function Len32(n: nat): (r: bytes)
    ensures |r| == 4 && Value(r) == n % TWO_32
  {
    BE32(n % TWO_32)
  }

  function Len64(n: nat): (r: bytes)
    ensures |r| == 8 && Value(r) == n % TWO_64
  {
    BE64(n % TWO_64)
  }

  function EncodeInput(i: Input): bytes {
    i.outputReferred.parentTXID + (BE32(i.outputReferred.vout) + (Len64(|i.scriptSig|) + i.scriptSig))
  }

  function EncodeOutput(o: Output): bytes {
    BE64(o.value) + (Len64(|o.scriptPubKey|) + o.scriptPubKey)
  }

  function EncodeInputs(s: seq<Input>): bytes {
    if |s| == 0 then [] else EncodeInput(s[0]) + EncodeInputs(s[1..])
  }

  function EncodeOutputs(s: seq<Output>): bytes {
    if |s| == 0 then [] else EncodeOutput(s[0]) + EncodeOutputs(s[1..])
  }

  function Encode(inputs: seq<Input>, outputs: seq<Output>): bytes {
    Len32(|inputs|) + (EncodeInputs(inputs) + (Len32(|outputs|) + EncodeOutputs(outputs)))
  }

  lemma AppendAssoc(a: bytes, b: bytes, c: bytes)
    ensures (a + b) + c == a + (b + c)
  {
  }

  /** Lines 114-158: two loops that append to one buffer. */
  method Serialize(inputs: seq<Input>, outputs: seq<Output>) returns (res: bytes)
    ensures res == Encode(inputs, outputs)
  {
    res := Len32(|inputs|);
    for i := 0 to |inputs|
      invariant res + EncodeInputs(inputs[i..]) == Len32(|inputs|) + EncodeInputs(inputs)
    {
      AppendAssoc(res, EncodeInput(inputs[i]), EncodeInputs(inputs[i + 1..]));
      res := res + EncodeInput(inputs[i]);
    }
    assert res == Len32(|inputs|) + EncodeInputs(inputs) by { assert res + [] == res; }
    ghost var front := res;
    res := res + Len32(|outputs|);
    for i := 0 to |outputs|
      invariant res + EncodeOutputs(outputs[i..]) == (front + Len32(|outputs|)) + EncodeOutputs(outputs)
    {
      AppendAssoc(res, EncodeOutput(outputs[i]), EncodeOutputs(outputs[i + 1..]));
      res := res + EncodeOutput(outputs[i]);
    }
    assert res + [] == res;
    AppendAssoc(front, Len32(|outputs|), EncodeOutputs(outputs));
    AppendAssoc(Len32(|inputs|), EncodeInputs(inputs), Len32(|outputs|) + EncodeOutputs(outputs));
  }

  // ---- where every field stands

  function InputsLength(s: seq<Input>): nat {
    if |s| == 0 then 0
    else InputsLength(s[..|s| - 1]) + |s[|s| - 1].outputReferred.parentTXID| + 12 + |s[|s| - 1].scriptSig|
  }

  function OutputsLength(s: seq<Output>): nat {
    if |s| == 0 then 0 else OutputsLength(s[..|s| - 1]) + 16 + |s[|s| - 1].scriptPubKey|
  }

  lemma {:induction false} EncodeInputsConcat(s: seq<Input>, t: seq<Input>)
    ensures EncodeInputs(s + t) == EncodeInputs(s) + EncodeInputs(t)
  {
    hide EncodeInput;
    if |s| == 0 {
      assert s + t == t && [] + EncodeInputs(t) == EncodeInputs(t);
    } else {
      assert (s + t)[1..] == s[1..] + t;
      EncodeInputsConcat(s[1..], t);
      AppendAssoc(EncodeInput(s[0]), EncodeInputs(s[1..]), EncodeInputs(t));
    }
  }

  lemma {:induction false} EncodeOutputsConcat(s: seq<Output>, t: seq<Output>)
    ensures EncodeOutputs(s + t) == EncodeOutputs(s) + EncodeOutputs(t)
  {
    hide EncodeOutput;
    if |s| == 0 {
      assert s + t == t && [] + EncodeOutputs(t) == EncodeOutputs(t);
    } else {
      assert (s + t)[1..] == s[1..] + t;
      EncodeOutputsConcat(s[1..], t);
      AppendAssoc(EncodeOutput(s[0]), EncodeOutputs(s[1..]), EncodeOutputs(t));
    }
  }

  lemma EncodeOne(i: Input, o: Output)
    ensures EncodeInputs([i])
         == i.outputReferred.parentTXID + BE32(i.outputReferred.vout) + BE64(|i.scriptSig| % TWO_64) + i.scriptSig
    ensures EncodeOutputs([o]) == BE64(o.value) + BE64(|o.scriptPubKey| % TWO_64) + o.scriptPubKey
  {
    assert [i][1..] == [] && [o][1..] == [];
  }

  lemma {:induction false} InputsLengthIs(s: seq<Input>)
    ensures |EncodeInputs(s)| == InputsLength(s)
  {
    if |s| > 0 {
      var n := |s| - 1;
      InputsLengthIs(s[..n]);
      assert s == s[..n] + [s[n]];
      EncodeInputsConcat(s[..n], [s[n]]);
    }
  }

  lemma {:induction false} OutputsLengthIs(s: seq<Output>)
    ensures |EncodeOutputs(s)| == OutputsLength(s)
  {
    if |s| > 0 {
      var n := |s| - 1;
      OutputsLengthIs(s[..n]);
      assert s == s[..n] + [s[n]];
      EncodeOutputsConcat(s[..n], [s[n]]);
    }
  }

  lemma Around<T>(s: seq<T>, k: nat)
    requires k < |s|
    ensures s == s[..k] + ([s[k]] + s[k + 1..])
  {
  }

  lemma EncodeInputsSplit(s: seq<Input>, k: nat)
    requires k < |s|
    ensures EncodeInputs(s) == EncodeInputs(s[..k]) + (EncodeInputs([s[k]]) + EncodeInputs(s[k + 1..]))
  {
    hide EncodeInputs;
    Around(s, k);
    EncodeInputsConcat(s[..k], [s[k]] + s[k + 1..]);
    EncodeInputsConcat([s[k]], s[k + 1..]);
  }

  lemma EncodeOutputsSplit(s: seq<Output>, k: nat)
    requires k < |s|
    ensures EncodeOutputs(s) == EncodeOutputs(s[..k]) + (EncodeOutputs([s[k]]) + EncodeOutputs(s[k + 1..]))
  {
    hide EncodeOutputs;
    Around(s, k);
    EncodeOutputsConcat(s[..k], [s[k]] + s[k + 1..]);
    EncodeOutputsConcat([s[k]], s[k + 1..]);
  }

  lemma Middle(a: bytes, e: bytes, b: bytes)
    ensures (a + (e + b))[|a|..|a| + |e|] == e
  {
  }

  /** Input k stands behind the inputs before it: parent, position, length of the signature, signature. */
  lemma InputAt(s: seq<Input>, k: nat)
    requires k < |s|
    ensures var i, from := s[k], InputsLength(s[..k]);
            var e := i.outputReferred.parentTXID + BE32(i.outputReferred.vout) + BE64(|i.scriptSig| % TWO_64)
                     + i.scriptSig;
            from + |e| <= |EncodeInputs(s)| && EncodeInputs(s)[from..from + |e|] == e
  {
    EncodeOne(s[k], Output([], 0, 0, [], [], true));
    hide EncodeInputs, BE32, BE64;
    InputsLengthIs(s[..k]);
    EncodeInputsSplit(s, k);
    Middle(EncodeInputs(s[..k]), EncodeInputs([s[k]]), EncodeInputs(s[k + 1..]));
  }

  /** Output k likewise: value, length of the script, script. */
  lemma OutputAt(s: seq<Output>, k: nat)
    requires k < |s|
    ensures var o, from := s[k], OutputsLength(s[..k]);
            var e := BE64(o.value) + BE64(|o.scriptPubKey| % TWO_64) + o.scriptPubKey;
            from + |e| <= |EncodeOutputs(s)| && EncodeOutputs(s)[from..from + |e|] == e
  {
    EncodeOne(Input(s[k], []), s[k]);
    hide EncodeOutputs, BE64;
    OutputsLengthIs(s[..k]);
    EncodeOutputsSplit(s, k);
    Middle(EncodeOutputs(s[..k]), EncodeOutputs([s[k]]), EncodeOutputs(s[k + 1..]));
  }

  /** The byte form: number of inputs, inputs, number of outputs, outputs; and how long it is. */
  lemma EncodeLayout(inputs: seq<Input>, outputs: seq<Output>)
    ensures var e, mid := Encode(inputs, outputs), 4 + InputsLength(inputs);
            && |e| == mid + 4 + OutputsLength(outputs)
            && e[..4] == BE32(|inputs| % TWO_32) && e[4..mid] == EncodeInputs(inputs)
            && e[mid..mid + 4] == BE32(|outputs| % TWO_32) && e[mid + 4..] == EncodeOutputs(outputs)
  {
    InputsLengthIs(inputs);
    OutputsLengthIs(outputs);
    hide EncodeInputs, EncodeOutputs, InputsLength, OutputsLength, BE32;
  }

  /** What of an input and of an output the byte form carries. */
  datatype InputKey = InputKey(parentTXID: bytes, vout: uint32, scriptSig: bytes)

  function KeyOf(i: Input): InputKey {
    InputKey(i.outputReferred.parentTXID, i.outputReferred.vout, i.scriptSig)
  }

  predicate SamePayment(a: Output, b: Output) {
    a.value == b.value && a.scriptPubKey == b.scriptPubKey
  }

  predicate SameContent(a: Tx, b: Tx) {
    && |a.inputs| == |b.inputs| && |a.outputs| == |b.outputs|
    && (forall i :: 0 <= i < |a.inputs| ==> KeyOf(a.inputs[i]) == KeyOf(b.inputs[i]))
    && (forall i :: 0 <= i < |a.outputs| ==> SamePayment(a.outputs[i], b.outputs[i]))
  }

  /** 32-byte parents, and sizes that a machine holds. */
  predicate Encodable(tx: Tx) {
    && |tx.inputs| < TWO_32 && |tx.outputs| < TWO_32
    && (forall i :: 0 <= i < |tx.inputs| ==> EncodableInput(tx.inputs[i]))
    && (forall i :: 0 <= i < |tx.outputs| ==> |tx.outputs[i].scriptPubKey| < TWO_64)
  }

  predicate EncodableInput(i: Input) {
    |i.outputReferred.parentTXID| == 32 && |i.scriptSig| < TWO_64
  }

  /** Cutting two equal strings at the same place. */
  lemma SplitEqual(a: bytes, b: bytes, x: bytes, y: bytes)
    requires |a| == |b| && a + x == b + y
    ensures a == b && x == y
  {
    assert a == (a + x)[..|a|] && b == (b + y)[..|b|];
    assert x == (a + x)[|a|..] && y == (b + y)[|b|..];
  }

  /** A length-prefixed string is prefix-free. */
  lemma PrefixedInjective(a: bytes, b: bytes, x: bytes, y: bytes)
    requires |a| < TWO_64 && |b| < TWO_64 && (Len64(|a|) + a) + x == (Len64(|b|) + b) + y
    ensures a == b && x == y
  {
    AppendAssoc(Len64(|a|), a, x);
    AppendAssoc(Len64(|b|), b, y);
    SplitEqual(Len64(|a|), Len64(|b|), a + x, b + y);
    SplitEqual(a, b, x, y);
  }

  lemma Len32Injective(m: nat, n: nat)
    requires m < TWO_32 && n < TWO_32 && Len32(m) == Len32(n)
    ensures m == n
  {
    assert Value(Len32(m)) == Value(Len32(n));
  }

  lemma EncodeInputInjective(a: Input, b: Input, x: bytes, y: bytes)
    requires EncodableInput(a) && EncodableInput(b) && EncodeInput(a) + x == EncodeInput(b) + y
    ensures KeyOf(a) == KeyOf(b) && x == y
  {
    var p, q := a.outputReferred, b.outputReferred;
    var s, t := Len64(|a.scriptSig|) + a.scriptSig, Len64(|b.scriptSig|) + b.scriptSig;
    AppendAssoc(p.parentTXID, BE32(p.vout) + s, x);
    AppendAssoc(q.parentTXID, BE32(q.vout) + t, y);
    SplitEqual(p.parentTXID, q.parentTXID, (BE32(p.vout) + s) + x, (BE32(q.vout) + t) + y);
    AppendAssoc(BE32(p.vout), s, x);
    AppendAssoc(BE32(q.vout), t, y);
    SplitEqual(BE32(p.vout), BE32(q.vout), s + x, t + y);
    PrefixedInjective(a.scriptSig, b.scriptSig, x, y);
  }

  lemma EncodeOutputInjective(a: Output, b: Output, x: bytes, y: bytes)
    requires |a.scriptPubKey| < TWO_64 && |b.scriptPubKey| < TWO_64 && EncodeOutput(a) + x == EncodeOutput(b) + y
    ensures SamePayment(a, b) && x == y
  {
    var s, t := Len64(|a.scriptPubKey|) + a.scriptPubKey, Len64(|b.scriptPubKey|) + b.scriptPubKey;
    AppendAssoc(BE64(a.value), s, x);
    AppendAssoc(BE64(b.value), t, y);
    SplitEqual(BE64(a.value), BE64(b.value), s + x, t + y);
    PrefixedInjective(a.scriptPubKey, b.scriptPubKey, x, y);
  }

  lemma {:induction false} EncodeInputsInjective(a: seq<Input>, b: seq<Input>, x: bytes, y: bytes)
    requires |a| == |b| && EncodeInputs(a) + x == EncodeInputs(b) + y
    requires forall i :: 0 <= i < |a| ==> EncodableInput(a[i]) && EncodableInput(b[i])
    ensures x == y && forall i :: 0 <= i < |a| ==> KeyOf(a[i]) == KeyOf(b[i])
  {
    if |a| == 0 {
      assert [] + x == x && [] + y == y;
    } else {
      AppendAssoc(EncodeInput(a[0]), EncodeInputs(a[1..]), x);
      AppendAssoc(EncodeInput(b[0]), EncodeInputs(b[1..]), y);
      EncodeInputInjective(a[0], b[0], EncodeInputs(a[1..]) + x, EncodeInputs(b[1..]) + y);
      EncodeInputsInjective(a[1..], b[1..], x, y);
      assert forall i :: 1 <= i < |a| ==> a[i] == a[1..][i - 1] && b[i] == b[1..][i - 1];
    }
  }

  lemma {:induction false} EncodeOutputsInjective(a: seq<Output>, b: seq<Output>)
    requires |a| == |b| && EncodeOutputs(a) == EncodeOutputs(b)
    requires forall i :: 0 <= i < |a| ==> |a[i].scriptPubKey| < TWO_64 && |b[i].scriptPubKey| < TWO_64
    ensures forall i :: 0 <= i < |a| ==> SamePayment(a[i], b[i])
  {
    if |a| > 0 {
      EncodeOutputInjective(a[0], b[0], EncodeOutputs(a[1..]), EncodeOutputs(b[1..]));
      EncodeOutputsInjective(a[1..], b[1..]);
      assert forall i :: 1 <= i < |a| ==> a[i] == a[1..][i - 1] && b[i] == b[1..][i - 1];
    }
  }

  /** Equal bytes force equal references, signatures and payments. */
  lemma EncodeInjective(t: Tx, u: Tx)
    requires Encodable(t) && Encodable(u) && Encode(t.inputs, t.outputs) == Encode(u.inputs, u.outputs)
    ensures SameContent(t, u)
  {
    hide EncodeInputs, EncodeOutputs, Len32, EncodableInput, KeyOf, SamePayment, Value;
    var p, q := Len32(|t.outputs|) + EncodeOutputs(t.outputs), Len32(|u.outputs|) + EncodeOutputs(u.outputs);
    SplitEqual(Len32(|t.inputs|), Len32(|u.inputs|), EncodeInputs(t.inputs) + p, EncodeInputs(u.inputs) + q);
    Len32Injective(|t.inputs|, |u.inputs|);
    EncodeInputsInjective(t.inputs, u.inputs, p, q);
    SplitEqual(Len32(|t.outputs|), Len32(|u.outputs|), EncodeOutputs(t.outputs), EncodeOutputs(u.outputs));
    Len32Injective(|t.outputs|, |u.outputs|);
    EncodeOutputsInjective(t.outputs, u.outputs);
  }

  /** generateTXID. */
  function TxId(h: Hash, inputs: seq<Input>, outputs: seq<Output>): Digest {
    DoubleHash(h, Encode(inputs, outputs))
  }

  /** The transaction carries its own identifier, as generateTXID sets it. */
  predicate Identified(h: Hash, tx: Tx) {
    Encodable(tx) && tx.txid == TxId(h, tx.inputs, tx.outputs)
  }

  /** One identifier for two transactions means one content, or an explicit collision of the double hash. */
  lemma TxIdBinding(h: Hash, t: Tx, u: Tx)
    requires Encodable(t) && Encodable(u) && TxId(h, t.inputs, t.outputs) == TxId(h, u.inputs, u.outputs)
    ensures SameContent(t, u) || Collision(h, Encode(t.inputs, t.outputs), Encode(u.inputs, u.outputs))
  {
    if Encode(t.inputs, t.outputs) == Encode(u.inputs, u.outputs) {
      EncodeInjective(t, u);
    }
  }

  /** updateOutputs: every output is tied to its transaction and position. */
  function TieOutputs(h: Hash, txid: bytes, outputs: seq<Output>): (r: seq<Output>)
    ensures |r| == |outputs|
    ensures forall i :: 0 <= i < |r| ==>
              && r[i].parentTXID == txid && r[i].vout == i % TWO_32 && r[i].outputID == OutputId(h, txid, i % TWO_32)
              && SamePayment(r[i], outputs[i]) && r[i].isNotSpent == outputs[i].isNotSpent
  {
    seq(|outputs|, i requires 0 <= i < |outputs| =>
      outputs[i].(parentTXID := txid, vout := i % TWO_32, outputID := OutputId(h, txid, i % TWO_32)))
  }

  function NewTransaction(h: Hash, inputs: seq<Input>, outputs: seq<Output>): Tx {
    var txid := TxId(h, inputs, outputs);
    Tx(txid, 0, false, inputs, TieOutputs(h, txid, outputs))
  }

  const MAX_VALID_AMOUNT: uint64 := 100000000 * 100000000

  /** NewCoinbaseTransaction, with the miner's key already in bytes; None is ErrInvalidValue. */
  function NewCoinbaseTransaction(h: Hash, msg: bytes, value: uint64, key: bytes, blockHeight: uint32): Option<Tx> {
    if value > MAX_VALID_AMOUNT then None
    else
      var height := (blockHeight + 1) % TWO_32;
      var input := Input(NewTransactionOutput(h, seq(32, _ => 0), 0, 0xffff_ffff, []), BE32(height) + msg);
      var output := NewTransactionOutput(h, [], 0, value, key);
      var txid := TxId(h, [input], [output]);
      Some(Tx(txid, height, true, [input], TieOutputs(h, txid, [output])))
  }

  /** What a coinbase consists of: a placeholder input under height and message, and one output to the miner's key. */
  lemma NewCoinbaseFields(h: Hash, msg: bytes, value: uint64, key: bytes, blockHeight: uint32)
    ensures var made := NewCoinbaseTransaction(h, msg, value, key, blockHeight);
            if value > 10_000_000_000_000_000 then made == None
            else
              made.Some? &&
              var tx, height := made.value, (blockHeight + 1) % TWO_32;
              && tx.isCoinbase && tx.blockHeight == height && |tx.inputs| == |tx.outputs| == 1
              && tx.txid == h(h(Encode(tx.inputs, tx.outputs)))
              && var i, o := tx.inputs[0], tx.outputs[0];
                 && i.outputReferred.parentTXID == seq(32, _ => 0) && i.outputReferred.vout == 0
                 && i.outputReferred.value == 0xffff_ffff && i.outputReferred.scriptPubKey == []
                 && i.scriptSig == BE32(height) + msg
                 && o.value == value && o.scriptPubKey == key && o.isNotSpent
                 && o.parentTXID == tx.txid && o.vout == 0 && o.outputID == h(h(tx.txid + BE32(0)))
  {
    if value <= MAX_VALID_AMOUNT {
      var tx := NewCoinbaseTransaction(h, msg, value, key, blockHeight).value;
      var output := NewTransactionOutput(h, [], 0, value, key);
      assert EncodeOutputs(tx.outputs) == EncodeOutputs([output]) by {
        assert tx.outputs[1..] == [] && [output][1..] == [];
      }
    }
  }

  /** Coinbase transactions of different heights never share their bytes, whatever the message, value and key. */
  lemma CoinbaseHeightsDiffer(h: Hash, m1: bytes, m2: bytes, v1: uint64, v2: uint64, k1: bytes, k2: bytes,
                              h1: uint32, h2: uint32)
    requires h1 != h2
    requires |m1| < TWO_64 - 4 && |m2| < TWO_64 - 4 && |k1| < TWO_64 && |k2| < TWO_64
    requires v1 <= MAX_VALID_AMOUNT && v2 <= MAX_VALID_AMOUNT
    ensures var a := NewCoinbaseTransaction(h, m1, v1, k1, h1).value;
            var b := NewCoinbaseTransaction(h, m2, v2, k2, h2).value;
            Encode(a.inputs, a.outputs) != Encode(b.inputs, b.outputs)
  {
    hide Encode, EncodeInputs, EncodeOutputs, Value, BigEndian, BE32, TxId, OutputId;
    var a, b := NewCoinbaseTransaction(h, m1, v1, k1, h1).value, NewCoinbaseTransaction(h, m2, v2, k2, h2).value;
    var n1, n2 := (h1 + 1) % TWO_32, (h2 + 1) % TWO_32;
    assert n1 != n2;
    assert Encodable(a) && Encodable(b);
    if Encode(a.inputs, a.outputs) == Encode(b.inputs, b.outputs) {
      EncodeInjective(a, b);
      assert KeyOf(a.inputs[0]) == KeyOf(b.inputs[0]);
      SplitEqual(BE32(n1), BE32(n2), m1, m2);
    }
  }
}
