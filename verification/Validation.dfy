/** core/transaction.go: what ValidateTransaction accepts. */
module Validation {
  import opened Bytes
  import opened Transactions
  import opened TxMetadata
  import opened Chainstates

  /** Foreign code: the hash, the decoding of a public key, and the signature check (message, signature, key). */
  datatype Crypto = Crypto(hash: Hash, keyIsValid: bytes -> bool, verify: (bytes, bytes, bytes) -> bool)

  datatype TxError =
    DuplicateInput | NonExistentUtxo | InputOutputMismatch | BadPublicKey | InvalidSignature
    | InvalidValue | InsufficientFunds

  /** Panics is the index out of range on an empty ScriptSig (line 251). */
  datatype Verdict = Valid | Rejected(error: TxError) | Panics

  const SIGHASH_ALL: byte := 1

  /** The inputs as they are signed: the script of the output for signature i, nothing for the others. */
  function SigningInputs(inputs: seq<Input>, i: nat): (r: seq<Input>)
    ensures |r| == |inputs|
    ensures forall j :: 0 <= j < |r| ==>
              r[j] == Input(inputs[j].outputReferred, if j == i then inputs[j].outputReferred.scriptPubKey else [])
  {
    seq(|inputs|, j requires 0 <= j < |inputs| =>
      Input(inputs[j].outputReferred, if j == i then inputs[j].outputReferred.scriptPubKey else []))
  }

  /** The message of input i; nil for every flag but SIGHASH_ALL. */
  function SigMessage(h: Hash, inputs: seq<Input>, outputs: seq<Output>, i: nat, flag: byte): bytes {
    if flag == SIGHASH_ALL then DoubleHash(h, Encode(SigningInputs(inputs, i), outputs) + [flag]) else []
  }

  /** Only flag 1 is signed: the double hash of the bytes of the transaction with these scripts, and the flag. */
  lemma SigMessageExact(h: Hash, inputs: seq<Input>, ins: seq<Input>, outputs: seq<Output>, i: nat, flag: byte)
    requires |ins| == |inputs|
    requires forall j :: 0 <= j < |ins| ==>
               && ins[j].outputReferred == inputs[j].outputReferred
               && ins[j].scriptSig == if j == i then inputs[j].outputReferred.scriptPubKey else []
    ensures SigMessage(h, inputs, outputs, i, flag) == if flag == 1 then h(h(Encode(ins, outputs) + [flag])) else []
  {
    assert SigningInputs(inputs, i) == ins;
  }

  function IdsOf(inputs: seq<Input>): (r: seq<bytes>)
    ensures |r| == |inputs| && forall i :: 0 <= i < |r| ==> r[i] == inputs[i].outputReferred.outputID
  {
    seq(|inputs|, i requires 0 <= i < |inputs| => inputs[i].outputReferred.outputID)
  }

  function InputVerdict(c: Crypto, rs: Records, tx: Tx, i: nat): Verdict
    requires i < |tx.inputs|
  {
    var o, sig := tx.inputs[i].outputReferred, tx.inputs[i].scriptSig;
    match Lookup(rs, o.parentTXID, o.vout)
    case None => Rejected(NonExistentUtxo)
    case Some(coin) =>
      if !SameOutput(NewTransactionOutput(c.hash, o.parentTXID, o.vout, coin.value, coin.script), o) then
        Rejected(InputOutputMismatch)
      else if |sig| == 0 then Panics
      else if !c.keyIsValid(coin.script) then Rejected(BadPublicKey)
      else
        var message := SigMessage(c.hash, tx.inputs, tx.outputs, i, sig[|sig| - 1]);
        if c.verify(message, sig[..|sig| - 1], coin.script) then Valid else Rejected(InvalidSignature)
  }

  /** The first verdict from input i on that is not Valid. */
  function InputsVerdict(c: Crypto, rs: Records, tx: Tx, i: nat): Verdict
    requires i <= |tx.inputs|
    decreases |tx.inputs| - i
  {
    if i == |tx.inputs| then Valid
    else if InputVerdict(c, rs, tx, i) != Valid then InputVerdict(c, rs, tx, i)
    else InputsVerdict(c, rs, tx, i + 1)
  }

  /** Every running sum of the outputs, in 64 bits, is a valid amount. */
  predicate RunningSumsValid(outputs: seq<Output>) {
    forall i :: 0 <= i <= |outputs| ==> SumOutputs(outputs[..i]) % TWO_64 <= MAX_VALID_AMOUNT
  }

  /** One tick for every byte. */
  function MinimumFees(tx: Tx): uint64 {
    |Encode(tx.inputs, tx.outputs)| % TWO_64
  }

  predicate Funded(tx: Tx) {
    SumInputs(tx.inputs) % TWO_64 >= (SumOutputs(tx.outputs) % TWO_64 + MinimumFees(tx)) % TWO_64
  }

  function TxVerdict(c: Crypto, rs: Records, tx: Tx): Verdict {
    if !Distinct(IdsOf(tx.inputs)) then Rejected(DuplicateInput)
    else if InputsVerdict(c, rs, tx, 0) != Valid then InputsVerdict(c, rs, tx, 0)
    else if !RunningSumsValid(tx.outputs) then Rejected(InvalidValue)
    else if !Funded(tx) then Rejected(InsufficientFunds)
    else Valid
  }

  /** Lines 233-241: a set instead of a map of flags. */
  method HasDuplicates(inputs: seq<Input>) returns (dup: bool)
    ensures dup <==> !Distinct(IdsOf(inputs))
  {
    var dedup: set<bytes> := {};
    ghost var ids := IdsOf(inputs);
    for i := 0 to |inputs|
      invariant forall x :: x in dedup <==> exists j :: 0 <= j < i && ids[j] == x
      invariant forall j, k :: 0 <= j < k < i ==> ids[j] != ids[k]
    {
      if inputs[i].outputReferred.outputID in dedup {
        return true;
      }
      dedup := dedup + {inputs[i].outputReferred.outputID};
    }
    return false;
  }

  /** Lines 229-296. */
  method ValidateTransaction(c: Crypto, cs: Chainstate, tx: Tx) returns (v: Verdict)
    requires cs.Valid()
    ensures v == TxVerdict(c, cs.records, tx)
  {
    hide Chainstate.Valid, Encode, NewTransactionOutput, Distinct;
    var dup := HasDuplicates(tx.inputs);
    if dup {
      return Rejected(DuplicateInput);
    }
    v := ValidateInputs(c, cs, tx);
    if v == Valid {
      v := ValidateAmounts(tx);
    }
  }

  /** Lines 265-283. */
  method ValidateAmounts(tx: Tx) returns (v: Verdict)
    ensures v == if !RunningSumsValid(tx.outputs) then Rejected(InvalidValue)
                 else if !Funded(tx) then Rejected(InsufficientFunds) else Valid
  {
    hide Encode;
    var inputValue := AddInputs(tx.inputs);
    var ok, outputValue := AddOutputs(tx.outputs);
    if !ok {
      return Rejected(InvalidValue);
    }
    var minimum := GetMinimumFees(tx);
    return if inputValue < (outputValue + minimum) % TWO_64 then Rejected(InsufficientFunds) else Valid;
  }

  /** Lines 269-276: the check follows every addition. */
  method AddOutputs(outputs: seq<Output>) returns (ok: bool, outputValue: uint64)
    ensures ok <==> RunningSumsValid(outputs)
    ensures ok ==> outputValue == SumOutputs(outputs) % TWO_64
  {
    outputValue := 0;
    for i := 0 to |outputs|
      invariant outputValue == SumOutputs(outputs[..i]) % TWO_64
      invariant forall j :: 0 <= j <= i ==> SumOutputs(outputs[..j]) % TWO_64 <= MAX_VALID_AMOUNT
    {
      assert outputs[..i + 1][..i] == outputs[..i];
      AddModulo(SumOutputs(outputs[..i]), outputs[i].value);
      outputValue := (outputValue + outputs[i].value) % TWO_64;
      if outputValue > MAX_VALID_AMOUNT {
        return false, outputValue;
      }
    }
    assert outputs[..|outputs|] == outputs;
    ok := true;
  }

  method GetMinimumFees(tx: Tx) returns (fee: uint64)
    ensures fee == MinimumFees(tx)
  {
    var data := Serialize(tx.inputs, tx.outputs);
    fee := |data| % TWO_64;
  }

  /** Lines 243-266, without the sum. */
  method ValidateInputs(c: Crypto, cs: Chainstate, tx: Tx) returns (v: Verdict)
    requires cs.Valid()
    ensures v == InputsVerdict(c, cs.records, tx, 0)
  {
    hide Chainstate.Valid, Encode, NewTransactionOutput, SigMessage;
    for i := 0 to |tx.inputs|
      invariant InputsVerdict(c, cs.records, tx, 0) == InputsVerdict(c, cs.records, tx, i)
    {
      var o, sig := tx.inputs[i].outputReferred, tx.inputs[i].scriptSig;
      var utxo := cs.GetUtxo(c.hash, o.parentTXID, o.vout);
      if utxo == None {
        return Rejected(NonExistentUtxo);
      }
      if !SameOutput(utxo.value, o) {
        return Rejected(InputOutputMismatch);
      }
      if |sig| == 0 {
        return Panics;
      }
      assert utxo.value.scriptPubKey == Lookup(cs.records, o.parentTXID, o.vout).value.script by {
        ScriptOf(c.hash, o.parentTXID, o.vout, Lookup(cs.records, o.parentTXID, o.vout).value);
      }
      var sigMsg := SigMessage(c.hash, tx.inputs, tx.outputs, i, sig[|sig| - 1]);
      if !c.keyIsValid(utxo.value.scriptPubKey) {
        return Rejected(BadPublicKey);
      }
      if !c.verify(sigMsg, sig[..|sig| - 1], utxo.value.scriptPubKey) {
        return Rejected(InvalidSignature);
      }
    }
    return Valid;
  }

  lemma ScriptOf(h: Hash, parent: bytes, vout: uint32, coin: Coin)
    ensures NewTransactionOutput(h, parent, vout, coin.value, coin.script).scriptPubKey == coin.script
  {
  }

  // ---- what acceptance means

  /** The entry an input takes out. */
  type Outpoint = (bytes, nat)

  function RefsOf(inputs: seq<Input>): (r: seq<Outpoint>)
    ensures |r| == |inputs|
    ensures forall i :: 0 <= i < |r| ==> r[i] == (inputs[i].outputReferred.parentTXID, inputs[i].outputReferred.vout)
  {
    seq(|inputs|, i requires 0 <= i < |inputs| => (inputs[i].outputReferred.parentTXID, inputs[i].outputReferred.vout))
  }

  /** The input names an unspent entry by its true identifier, value and script. */
  predicate Backed(h: Hash, rs: Records, i: Input) {
    var o := i.outputReferred;
    && Lookup(rs, o.parentTXID, o.vout) == Some(Coin(o.value, o.scriptPubKey))
    && o.outputID == OutputId(h, o.parentTXID, o.vout)
  }

  lemma {:induction false} InputsVerdictValid(c: Crypto, rs: Records, tx: Tx, i: nat)
    requires i <= |tx.inputs|
    ensures InputsVerdict(c, rs, tx, i) == Valid
       <==> forall j :: i <= j < |tx.inputs| ==> InputVerdict(c, rs, tx, j) == Valid
    decreases |tx.inputs| - i
  {
    if i < |tx.inputs| {
      InputsVerdictValid(c, rs, tx, i + 1);
    }
  }

  /**
   Acceptance in one line: identifiers distinct, every input good on its own, amounts in range, fees covered.
   */
  lemma AcceptedIff(c: Crypto, rs: Records, tx: Tx)
    ensures TxVerdict(c, rs, tx) == Valid
       <==> && Distinct(IdsOf(tx.inputs))
            && (forall i :: 0 <= i < |tx.inputs| ==> InputVerdict(c, rs, tx, i) == Valid)
            && RunningSumsValid(tx.outputs)
            && Funded(tx)
  {
    InputsVerdictValid(c, rs, tx, 0);
  }

  /** The key of the entry verifies the signature in front of the flag on the message of the input. */
  predicate Signed(c: Crypto, tx: Tx, i: nat)
    requires i < |tx.inputs|
  {
    var script, sig := tx.inputs[i].outputReferred.scriptPubKey, tx.inputs[i].scriptSig;
    && |sig| > 0 && c.keyIsValid(script)
    && c.verify(SigMessage(c.hash, tx.inputs, tx.outputs, i, sig[|sig| - 1]), sig[..|sig| - 1], script)
  }

  /** The input claims its entry as the ledger holds it. */
  predicate Claims(c: Crypto, rs: Records, i: Input) {
    Backed(c.hash, rs, i) && i.outputReferred.isNotSpent
  }

  predicate Good(c: Crypto, rs: Records, tx: Tx, i: nat)
    requires i < |tx.inputs|
  {
    Claims(c, rs, tx.inputs[i]) && Signed(c, tx, i)
  }

  /** What is wrong with an input that gets this verdict. */
  predicate Fault(c: Crypto, rs: Records, tx: Tx, i: nat, v: Verdict)
    requires i < |tx.inputs|
  {
    var o, sig := tx.inputs[i].outputReferred, tx.inputs[i].scriptSig;
    var claims := Claims(c, rs, tx.inputs[i]);
    match v
    case Panics => claims && sig == []
    case Rejected(NonExistentUtxo) => Lookup(rs, o.parentTXID, o.vout) == None
    case Rejected(InputOutputMismatch) => Lookup(rs, o.parentTXID, o.vout).Some? && !claims
    case Rejected(BadPublicKey) => claims && sig != [] && !c.keyIsValid(o.scriptPubKey)
    case Rejected(InvalidSignature) => claims && sig != [] && c.keyIsValid(o.scriptPubKey) && !Signed(c, tx, i)
    case _ => false
  }

  lemma InputCause(c: Crypto, rs: Records, tx: Tx, i: nat)
    requires i < |tx.inputs|
    ensures InputVerdict(c, rs, tx, i) == Valid <==> Good(c, rs, tx, i)
    ensures InputVerdict(c, rs, tx, i) != Valid ==> Fault(c, rs, tx, i, InputVerdict(c, rs, tx, i))
  {
    hide OutputId, SigMessage;
  }

  lemma {:induction false} InputsCause(c: Crypto, rs: Records, tx: Tx, i: nat)
    requires i <= |tx.inputs|
    ensures var v := InputsVerdict(c, rs, tx, i);
            if v == Valid then forall j :: i <= j < |tx.inputs| ==> Good(c, rs, tx, j)
            else
              exists k :: i <= k < |tx.inputs| && Fault(c, rs, tx, k, v)
                          && forall j :: i <= j < k ==> Good(c, rs, tx, j)
    decreases |tx.inputs| - i
  {
    hide InputVerdict, Good, Fault;
    if i < |tx.inputs| {
      InputCause(c, rs, tx, i);
      InputsCause(c, rs, tx, i + 1);
      var v := InputsVerdict(c, rs, tx, i + 1);
      if InputVerdict(c, rs, tx, i) == Valid && v != Valid {
        var k :| i < k < |tx.inputs| && Fault(c, rs, tx, k, v) && forall j :: i < j < k ==> Good(c, rs, tx, j);
        assert forall j :: i <= j < k ==> Good(c, rs, tx, j);
      }
    }
  }

  /** The inputs cover the outputs and one tick for every byte, in 64 bits. */
  predicate Affordable(tx: Tx) {
    SumInputs(tx.inputs) % TWO_64
    >= (SumOutputs(tx.outputs) % TWO_64 + |Encode(tx.inputs, tx.outputs)|) % TWO_64
  }

  /** The 64-bit sum of the outputs up to every one of them is at most 10^16. */
  predicate SumsInRange(tx: Tx) {
    forall n :: 0 <= n <= |tx.outputs| ==> SumOutputs(tx.outputs[..n]) % TWO_64 <= 10_000_000_000_000_000
  }

  /**
   Every verdict by its cause, in the order of the source's checks: a repeated identifier first, then the first input
   that is not good, then the amounts, then the fees.  The causes exclude each other, so each is also sufficient.
   */
  lemma VerdictCause(c: Crypto, rs: Records, tx: Tx)
    ensures var v, ids := TxVerdict(c, rs, tx), IdsOf(tx.inputs);
            var distinct := forall i, j :: 0 <= i < j < |ids| ==> ids[i] != ids[j];
            var good := forall i :: 0 <= i < |tx.inputs| ==> Good(c, rs, tx, i);
            match v
            case Valid => distinct && good && SumsInRange(tx) && Affordable(tx)
            case Rejected(DuplicateInput) => !distinct
            case Rejected(InvalidValue) => distinct && good && !SumsInRange(tx)
            case Rejected(InsufficientFunds) => distinct && good && SumsInRange(tx) && !Affordable(tx)
            case _ =>
              && distinct
              && exists k :: 0 <= k < |tx.inputs| && Fault(c, rs, tx, k, v)
                             && forall j :: 0 <= j < k ==> Good(c, rs, tx, j)
  {
    hide Good, InputVerdict, Encode, SumOutputs, SumInputs;
    InputsCause(c, rs, tx, 0);
    MinimumModulo(SumOutputs(tx.outputs) % TWO_64, |Encode(tx.inputs, tx.outputs)|);
  }

  lemma MinimumModulo(a: nat, n: nat)
    ensures (a + n % TWO_64) % TWO_64 == (a + n) % TWO_64
  {
  }

  lemma FaultNotGood(c: Crypto, rs: Records, tx: Tx, i: nat, v: Verdict)
    requires i < |tx.inputs| && Fault(c, rs, tx, i, v)
    ensures !(Claims(c, rs, tx.inputs[i]) && Signed(c, tx, i))
  {
  }

  /** Accepted if and only if all of this holds; no other definition of a verdict enters. */
  lemma AcceptedExactly(c: Crypto, rs: Records, tx: Tx)
    ensures TxVerdict(c, rs, tx) == Valid
       <==> && (forall i, j :: 0 <= i < j < |tx.inputs| ==>
                  tx.inputs[i].outputReferred.outputID != tx.inputs[j].outputReferred.outputID)
            && (forall i :: 0 <= i < |tx.inputs| ==> Claims(c, rs, tx.inputs[i]) && Signed(c, tx, i))
            && SumsInRange(tx) && Affordable(tx)
  {
    hide SumsInRange, Affordable, TxVerdict, Claims, Signed, Fault;
    VerdictCause(c, rs, tx);
    var v, ids := TxVerdict(c, rs, tx), IdsOf(tx.inputs);
    assert (forall i, j :: 0 <= i < j < |ids| ==> ids[i] != ids[j])
      <==> forall i, j :: 0 <= i < j < |tx.inputs| ==>
             tx.inputs[i].outputReferred.outputID != tx.inputs[j].outputReferred.outputID;
    match v
    case Valid =>
      forall i | 0 <= i < |tx.inputs| ensures Claims(c, rs, tx.inputs[i]) && Signed(c, tx, i) {
        assert Good(c, rs, tx, i);
      }
    case Rejected(DuplicateInput) =>
    case Rejected(InvalidValue) =>
    case Rejected(InsufficientFunds) =>
    case _ =>
      var k :| 0 <= k < |tx.inputs| && Fault(c, rs, tx, k, v);
      FaultNotGood(c, rs, tx, k, v);
  }

  /**
   An accepted transaction names unspent entries truthfully, each once: the identifiers are a function of the
   entries, so distinct identifiers mean distinct entries, whatever the hash does.
   */
  lemma AcceptedInputs(c: Crypto, rs: Records, tx: Tx)
    requires TxVerdict(c, rs, tx) == Valid
    ensures forall i :: 0 <= i < |tx.inputs| ==> Backed(c.hash, rs, tx.inputs[i])
    ensures Distinct(RefsOf(tx.inputs))
  {
    AcceptedIff(c, rs, tx);
    forall i | 0 <= i < |tx.inputs| ensures Backed(c.hash, rs, tx.inputs[i]) {
      assert InputVerdict(c, rs, tx, i) == Valid;
    }
    BackedDistinct(c.hash, rs, tx.inputs);
  }

  /** The identifiers of the outputs that the inputs name are their own. */
  predicate Named(h: Hash, inputs: seq<Input>) {
    forall i :: 0 <= i < |inputs| ==>
      var o := inputs[i].outputReferred; o.outputID == OutputId(h, o.parentTXID, o.vout)
  }

  lemma AcceptedNames(c: Crypto, rs: Records, tx: Tx)
    requires TxVerdict(c, rs, tx) == Valid
    ensures Named(c.hash, tx.inputs)
  {
    hide TxVerdict, OutputId;
    AcceptedInputs(c, rs, tx);
    assert forall i :: 0 <= i < |tx.inputs| ==> Backed(c.hash, rs, tx.inputs[i]);
  }

  lemma BackedDistinct(h: Hash, rs: Records, inputs: seq<Input>)
    requires forall i :: 0 <= i < |inputs| ==> Backed(h, rs, inputs[i])
    requires Distinct(IdsOf(inputs))
    ensures Distinct(RefsOf(inputs))
  {
    forall i, j | 0 <= i < j < |inputs| ensures RefsOf(inputs)[i] != RefsOf(inputs)[j] {
      assert IdsOf(inputs)[i] != IdsOf(inputs)[j];
      assert Backed(h, rs, inputs[i]) && Backed(h, rs, inputs[j]);
    }
  }

  /** A buffer that a machine holds. */
  predicate Sized(tx: Tx) {
    |Encode(tx.inputs, tx.outputs)| < 0x8000_0000_0000_0000
  }

  /** The minimum fee alone, at least eight ticks, forces an accepted transaction to have an input. */
  lemma AcceptedHasInput(c: Crypto, rs: Records, tx: Tx)
    requires Sized(tx) && TxVerdict(c, rs, tx) == Valid
    ensures |tx.inputs| > 0
  {
    hide Encode, SumOutputs, TxVerdict, InputVerdict, Distinct;
    AcceptedIff(c, rs, tx);
    assert tx.outputs[..|tx.outputs|] == tx.outputs;
    EncodeLength(tx);
    FeesAreMissing(SumOutputs(tx.outputs), MinimumFees(tx));
    assert |tx.inputs| == 0 ==> SumInputs(tx.inputs) == 0;
  }

  lemma FeesAreMissing(paidOut: nat, fee: nat)
    requires paidOut % TWO_64 <= MAX_VALID_AMOUNT && 8 <= fee < 0x8000_0000_0000_0000
    ensures (paidOut % TWO_64 + fee) % TWO_64 > 0
  {
    ModuloSmall(paidOut % TWO_64 + fee);
  }

  lemma EncodeLength(tx: Tx)
    ensures |Encode(tx.inputs, tx.outputs)| >= 8
  {
  }

  /**
   The check of the running sum bounds the true sum exactly when every single output is a valid amount: the sum
   is taken in 64 bits and may wrap.
   */
  lemma {:induction false} OutputSumBound(outputs: seq<Output>)
    requires RunningSumsValid(outputs)
    ensures SumOutputs(outputs) <= MAX_VALID_AMOUNT
       <==> forall i :: 0 <= i < |outputs| ==> outputs[i].value <= MAX_VALID_AMOUNT
  {
    if |outputs| > 0 {
      var front := outputs[..|outputs| - 1];
      assert forall i :: 0 <= i <= |front| ==> front[..i] == outputs[..i];
      assert outputs[..|outputs|] == outputs;
      OutputSumBound(front);
      assert forall i :: 0 <= i < |front| ==> front[i] == outputs[i];
    }
  }

  /** Two outputs whose 64-bit sum wraps to 2 pass the check. */
  lemma OutputSumCounterexample(a: Output, b: Output)
    requires a.value == 5 && b.value == TWO_64 - 3
    ensures RunningSumsValid([a, b]) && SumOutputs([a, b]) > MAX_VALID_AMOUNT
  {
    var s := [a, b];
    assert s[..0] == [] && s[..1] == [a] && s[..2] == s;
    assert SumOutputs([a]) == 5 by { assert [a][..0] == []; }
    assert SumOutputs(s) == 5 + (TWO_64 - 3);
    forall i | 0 <= i <= |s| ensures SumOutputs(s[..i]) % TWO_64 <= MAX_VALID_AMOUNT {
      assert i == 0 || i == 1 || i == 2;
    }
  }
}
