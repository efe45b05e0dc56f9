/**
 core/transaction.go and core/transaction_output.go in the heap: the fields that are rewritten in place when a
 transaction is built and when its inputs are signed.
 */
module Signing {
  import opened Bytes
  import opened Transactions
  import opened Chainstates
  import V = Validation

  class TransactionOutput {
    var parentTXID: bytes
    var vout: uint32
    var value: uint64
    var scriptPubKey: bytes
    var outputID: bytes
    var isNotSpent: bool

    /** core/transaction_output.go, lines 23-28. */
    constructor (h: Hash, parentTXID: bytes, vout: uint32, value: uint64, scriptPubKey: bytes)
      ensures Model() == NewTransactionOutput(h, parentTXID, vout, value, scriptPubKey)
      ensures Model() == Output(parentTXID, vout, value, scriptPubKey, h(h(parentTXID + BE32(vout))), true)
    {
      this.parentTXID, this.vout, this.value, this.scriptPubKey := parentTXID, vout, value, scriptPubKey;
      isNotSpent, outputID := true, [];
      new;
      GenerateOutputID(h);
    }

    function Model(): Output
      reads this
    {
      Output(parentTXID, vout, value, scriptPubKey, outputID, isNotSpent)
    }

    /** core/transaction_output.go, lines 31-39. */
    method GenerateOutputID(h: Hash)
      modifies this`outputID
      ensures outputID == OutputId(h, parentTXID, vout) == h(h(parentTXID + BE32(vout)))
    {
      var n, tail := |parentTXID|, BE32(vout);
      var res := new byte[n + 4](_ => 0);
      forall i | 0 <= i < n { res[i] := parentTXID[i]; }
      forall i | 0 <= i < 4 { res[n + i] := tail[i]; }
      assert res[..] == parentTXID + tail;
      outputID := DoubleHash(h, res[..]);
    }
  }

  class TransactionInput {
    var outputReferred: TransactionOutput
    var scriptSig: bytes

    constructor (outputReferred: TransactionOutput, scriptSig: bytes)
      ensures this.outputReferred == outputReferred && this.scriptSig == scriptSig
    {
      this.outputReferred, this.scriptSig := outputReferred, scriptSig;
    }

    function Model(): Input
      reads this, outputReferred
    {
      Input(outputReferred.Model(), scriptSig)
    }
  }

  function Referred(s: seq<TransactionInput>): set<TransactionOutput>
    reads s
  {
    set i | i in s :: i.outputReferred
  }

  function Objects(s: seq<TransactionOutput>): set<TransactionOutput> {
    set o | o in s
  }

  function InputModels(s: seq<TransactionInput>): (r: seq<Input>)
    reads s, Referred(s)
    ensures |r| == |s| && forall k :: 0 <= k < |s| ==> r[k] == s[k].Model()
  {
    if |s| == 0 then [] else InputModels(s[..|s| - 1]) + [s[|s| - 1].Model()]
  }

  function OutputModels(s: seq<TransactionOutput>): (r: seq<Output>)
    reads s
    ensures |r| == |s| && forall k :: 0 <= k < |s| ==> r[k] == s[k].Model()
  {
    if |s| == 0 then [] else OutputModels(s[..|s| - 1]) + [s[|s| - 1].Model()]
  }

  function Tied(h: Hash, txid: bytes, k: nat, o: Output): Output {
    o.(parentTXID := txid, vout := k % TWO_32, outputID := OutputId(h, txid, k % TWO_32))
  }

  // ---- one object in several places of a list

  /** The last place before n at which x stands, or -1. */
  ghost function LastBefore<T>(s: seq<T>, x: T, n: nat): (r: int)
    requires n <= |s|
    ensures -1 <= r < n
  {
    if n == 0 then -1 else if s[n - 1] == x then n - 1 else LastBefore(s, x, n - 1)
  }

  lemma {:induction false} LastIs<T>(s: seq<T>, x: T, n: nat)
    requires n <= |s|
    ensures var r := LastBefore(s, x, n); (r >= 0 ==> s[r] == x) && forall j :: r < j < n ==> s[j] != x
  {
    if n > 0 && s[n - 1] != x {
      LastIs(s, x, n - 1);
    }
  }

  lemma LastStep<T>(s: seq<T>, n: nat)
    requires n < |s|
    ensures forall x :: x in s ==> LastBefore(s, x, n + 1) == if x == s[n] then n else LastBefore(s, x, n)
  {
  }

  lemma LastOfMember<T>(s: seq<T>, k: nat, n: nat)
    requires k < n <= |s|
    ensures LastBefore(s, s[k], n) >= k
  {
    LastIs(s, s[k], n);
  }

  /** The last place of the object at place k. */
  ghost function LastPlace<T>(s: seq<T>, k: nat): (r: nat)
    requires k < |s|
    ensures k <= r < |s| && r == LastBefore(s, s[k], |s|)
  {
    LastOfMember(s, k, |s|);
    LastBefore(s, s[k], |s|)
  }

  lemma OnlyPlace<T>(s: seq<T>, k: nat)
    requires Distinct(s) && k < |s|
    ensures LastPlace(s, k) == k && LastBefore(s, s[k], k) == -1
  {
    LastIs(s, s[k], |s|);
    LastIs(s, s[k], k);
  }

  lemma NoneBefore<T>(s: seq<T>)
    ensures forall x :: x in s ==> LastBefore(s, x, 0) == -1
  {
  }

  /** The outputs after updateOutputs: an object in several places is tied to the last of them. */
  ghost function TiedModels(h: Hash, txid: bytes, s: seq<TransactionOutput>, models: seq<Output>): (r: seq<Output>)
    requires |models| == |s|
    ensures |r| == |s| && forall k :: 0 <= k < |s| ==> r[k] == Tied(h, txid, LastPlace(s, k), models[k])
  {
    seq(|s|, k requires 0 <= k < |s| => Tied(h, txid, LastPlace(s, k), models[k]))
  }

  lemma TiedDistinct(h: Hash, txid: bytes, s: seq<TransactionOutput>, models: seq<Output>)
    requires |models| == |s| && Distinct(s)
    ensures TiedModels(h, txid, s, models) == TieOutputs(h, txid, models)
  {
    hide OutputId, LastBefore, LastPlace;
    var r, q := TiedModels(h, txid, s, models), TieOutputs(h, txid, models);
    forall k | 0 <= k < |s| ensures r[k] == q[k] {
      OnlyPlace(s, k);
    }
  }

  /** The ScriptSig of an input that was last replaced at this place. */
  function SigAfter(place: int, index: nat, model: Input): bytes {
    if place < 0 then model.scriptSig else if place == index then model.outputReferred.scriptPubKey else []
  }

  /** The inputs as they are serialized for signing: what the last place of each object sets. */
  ghost function SetAsideModels(s: seq<TransactionInput>, models: seq<Input>, index: nat): (r: seq<Input>)
    requires |models| == |s|
    ensures |r| == |s|
    ensures forall k :: 0 <= k < |s| ==>
              r[k] == Input(models[k].outputReferred, SigAfter(LastPlace(s, k), index, models[k]))
  {
    seq(|s|, k requires 0 <= k < |s| =>
      Input(models[k].outputReferred, SigAfter(LastPlace(s, k), index, models[k])))
  }

  /** What was put aside at place k: the ScriptSig, unless an earlier place of the same object had replaced it. */
  ghost function AsideAt(s: seq<TransactionInput>, models: seq<Input>, index: nat, k: nat): bytes
    requires |models| == |s| && k < |s|
  {
    SigAfter(LastBefore(s, s[k], k), index, models[k])
  }

  ghost function AsideSigs(s: seq<TransactionInput>, models: seq<Input>, index: nat): (r: seq<bytes>)
    requires |models| == |s|
    ensures |r| == |s| && forall k :: 0 <= k < |s| ==> r[k] == AsideAt(s, models, index, k)
  {
    seq(|s|, k requires 0 <= k < |s| => AsideAt(s, models, index, k))
  }

  /** The inputs after the signatures are put back: an object in several places has lost its own. */
  ghost function PutBackModels(s: seq<TransactionInput>, models: seq<Input>, index: nat): (r: seq<Input>)
    requires |models| == |s|
    ensures |r| == |s|
    ensures forall k :: 0 <= k < |s| ==> r[k] == models[k].(scriptSig := AsideAt(s, models, index, LastPlace(s, k)))
  {
    seq(|s|, k requires 0 <= k < |s| => models[k].(scriptSig := AsideAt(s, models, index, LastPlace(s, k))))
  }

  lemma AsideDistinct(s: seq<TransactionInput>, models: seq<Input>, index: nat)
    requires |models| == |s| && Distinct(s)
    ensures SetAsideModels(s, models, index) == V.SigningInputs(models, index)
    ensures PutBackModels(s, models, index) == models
  {
    hide LastBefore, LastPlace;
    var a, b, c := SetAsideModels(s, models, index), V.SigningInputs(models, index), PutBackModels(s, models, index);
    forall k | 0 <= k < |s| ensures a[k] == b[k] && c[k] == models[k] {
      OnlyPlace(s, k);
    }
  }

  class Transaction {
    var txid: bytes
    var blockHeight: uint32
    var isCoinbase: bool
    var inputs: seq<TransactionInput>
    var outputs: seq<TransactionOutput>

    function Model(): Tx
      reads this, inputs, Referred(inputs), outputs
    {
      Tx(txid, blockHeight, isCoinbase, InputModels(inputs), OutputModels(outputs))
    }

    constructor (inputs: seq<TransactionInput>, outputs: seq<TransactionOutput>, blockHeight: uint32, isCoinbase: bool)
      ensures this.inputs == inputs && this.outputs == outputs && txid == []
      ensures this.blockHeight == blockHeight && this.isCoinbase == isCoinbase
    {
      this.inputs, this.outputs, txid := inputs, outputs, [];
      this.blockHeight, this.isCoinbase := blockHeight, isCoinbase;
    }

    /** Lines 99-108. */
    method UpdateOutputs(h: Hash)
      modifies this`txid, outputs
      ensures txid == if |old(txid)| > 0 then old(txid)
                      else TxId(h, old(InputModels(inputs)), old(OutputModels(outputs)))
      ensures OutputModels(outputs) == TiedModels(h, txid, outputs, old(OutputModels(outputs)))
      ensures Distinct(outputs) ==> OutputModels(outputs) == TieOutputs(h, txid, old(OutputModels(outputs)))
      ensures Referred(inputs) !! Objects(outputs) ==> InputModels(inputs) == old(InputModels(inputs))
    {
      hide Encode, OutputId, InputModels, OutputModels, TieOutputs, TiedModels, Distinct;
      if |txid| == 0 {
        GenerateTXID(h);
      }
      TieAll(h);
      if Distinct(outputs) {
        TiedDistinct(h, txid, outputs, old(OutputModels(outputs)));
      }
    }

    method GenerateTXID(h: Hash)
      modifies this`txid
      ensures txid == TxId(h, InputModels(inputs), OutputModels(outputs))
      ensures txid == h(h(Encode(InputModels(inputs), OutputModels(outputs))))
      ensures InputModels(inputs) == old(InputModels(inputs)) && OutputModels(outputs) == old(OutputModels(outputs))
    {
      hide Encode, InputModels, OutputModels;
      var data := Serialize(InputModels(inputs), OutputModels(outputs));
      txid := DoubleHash(h, data);
      assert InputModels(inputs) == old(InputModels(inputs)) && OutputModels(outputs) == old(OutputModels(outputs));
    }

    /** Lines 103-107. */
    method TieAll(h: Hash)
      modifies outputs
      ensures OutputModels(outputs) == TiedModels(h, txid, outputs, old(OutputModels(outputs)))
      ensures Referred(inputs) !! Objects(outputs) ==> InputModels(inputs) == old(InputModels(inputs))
    {
      hide OutputId, InputModels, OutputModels, LastBefore;
      ghost var was := OutputModels(outputs);
      NoneBefore(outputs);
      for i := 0 to |outputs|
        invariant forall o :: o in outputs ==>
                    o.Model() == if LastBefore(outputs, o, i) < 0 then old(o.Model())
                                 else Tied(h, txid, LastBefore(outputs, o, i), old(o.Model()))
      {
        LastStep(outputs, i);
        outputs[i].parentTXID := txid;
        outputs[i].vout := i % TWO_32;
        outputs[i].GenerateOutputID(h);
      }
      forall k | 0 <= k < |outputs| ensures OutputModels(outputs)[k] == TiedModels(h, txid, outputs, was)[k] {
        LastOfMember(outputs, k, |outputs|);
      }
      assert forall k :: 0 <= k < |inputs| ==> inputs[k].outputReferred in Referred(inputs);
    }

    /**
     Lines 309-340: the signatures are put aside, the message is formed, and the signatures are put back.  With
     different objects every ScriptSig is as before and the message is the one of Validation, which does not look at
     them; an object in several places goes through each step once per place.
     */
    method GatherSignatureDataForInput(h: Hash, inputIndex: nat, sighashFlag: byte) returns (msg: bytes)
      modifies inputs`scriptSig
      ensures msg == if sighashFlag != V.SIGHASH_ALL then []
                     else DoubleHash(h, Encode(SetAsideModels(inputs, old(InputModels(inputs)), inputIndex),
                                               OutputModels(outputs)) + [sighashFlag])
      ensures InputModels(inputs) == if sighashFlag != V.SIGHASH_ALL then old(InputModels(inputs))
                                     else PutBackModels(inputs, old(InputModels(inputs)), inputIndex)
      ensures Distinct(inputs) ==> InputModels(inputs) == old(InputModels(inputs))
      ensures Distinct(inputs) ==>
                msg == V.SigMessage(h, old(InputModels(inputs)), OutputModels(outputs), inputIndex, sighashFlag)
    {
      hide InputModels, OutputModels, Encode, DoubleHash, SetAsideModels, PutBackModels, AsideSigs, Distinct,
        V.SigningInputs;
      ghost var was := InputModels(inputs);
      if Distinct(inputs) {
        AsideDistinct(inputs, was, inputIndex);
      }
      if sighashFlag != V.SIGHASH_ALL {
        return [];
      }
      ghost var outs := OutputModels(outputs);
      var backupSigs := new bytes[|inputs|](_ => []);
      assert InputModels(inputs) == was && OutputModels(outputs) == outs;
      SetAside(inputIndex, backupSigs);
      ghost var aside := InputModels(inputs);
      msg := FormMessage(h, sighashFlag);
      assert InputModels(inputs) == aside && OutputModels(outputs) == outs;
      PutBack(inputIndex, backupSigs, was);
    }

    /** Lines 324-329. */
    method FormMessage(h: Hash, sighashFlag: byte) returns (msg: bytes)
      ensures msg == DoubleHash(h, Encode(InputModels(inputs), OutputModels(outputs)) + [sighashFlag])
    {
      hide InputModels, OutputModels, Encode;
      var ins, outs := InputModels(inputs), OutputModels(outputs);
      var customSerialTX := Serialize(ins, outs);
      assert InputModels(inputs) == ins && OutputModels(outputs) == outs;
      customSerialTX := customSerialTX + [sighashFlag];
      msg := DoubleHash(h, customSerialTX);
    }

    /** Lines 313-322. */
    method SetAside(inputIndex: nat, backupSigs: array<bytes>)
      requires backupSigs.Length == |inputs|
      modifies inputs`scriptSig, backupSigs
      ensures InputModels(inputs) == SetAsideModels(inputs, old(InputModels(inputs)), inputIndex)
      ensures backupSigs[..] == AsideSigs(inputs, old(InputModels(inputs)), inputIndex)
      ensures OutputModels(outputs) == old(OutputModels(outputs))
    {
      hide InputModels, OutputModels, LastBefore;
      ghost var was := InputModels(inputs);
      NoneBefore(inputs);
      for i := 0 to |inputs|
        invariant forall x :: x in inputs ==>
                    x.scriptSig == SigAfter(LastBefore(inputs, x, i), inputIndex, old(x.Model()))
        invariant forall k :: 0 <= k < i ==>
                    backupSigs[k] == SigAfter(LastBefore(inputs, inputs[k], k), inputIndex, was[k])
      {
        LastStep(inputs, i);
        backupSigs[i] := inputs[i].scriptSig;
        inputs[i].scriptSig := if i == inputIndex then inputs[i].outputReferred.scriptPubKey else [];
      }
      forall k | 0 <= k < |inputs| ensures InputModels(inputs)[k] == SetAsideModels(inputs, was, inputIndex)[k] {
        LastOfMember(inputs, k, |inputs|);
      }
      assert OutputModels(outputs) == old(OutputModels(outputs));
    }

    /** Lines 331-333. */
    method PutBack(inputIndex: nat, backupSigs: array<bytes>, ghost was: seq<Input>)
      requires |was| == |inputs| && backupSigs[..] == AsideSigs(inputs, was, inputIndex)
      requires InputModels(inputs) == SetAsideModels(inputs, was, inputIndex)
      modifies inputs`scriptSig
      ensures InputModels(inputs) == PutBackModels(inputs, was, inputIndex)
      ensures OutputModels(outputs) == old(OutputModels(outputs))
    {
      hide InputModels, OutputModels, AsideAt, LastBefore;
      assert forall k :: 0 <= k < |inputs| ==> inputs[k].outputReferred.Model() == was[k].outputReferred by {
        assert forall k :: 0 <= k < |inputs| ==> InputModels(inputs)[k] == inputs[k].Model();
      }
      ghost var aside := backupSigs[..];
      assert forall k :: 0 <= k < |inputs| ==> backupSigs[k] == aside[k] == AsideAt(inputs, was, inputIndex, k);
      NoneBefore(inputs);
      for i := 0 to |inputs|
        invariant forall x :: x in inputs ==>
                    LastBefore(inputs, x, i) >= 0 ==> x.scriptSig == backupSigs[LastBefore(inputs, x, i)]
      {
        LastStep(inputs, i);
        inputs[i].scriptSig := backupSigs[i];
      }
      forall k | 0 <= k < |inputs| ensures InputModels(inputs)[k] == PutBackModels(inputs, was, inputIndex)[k] {
        LastOfMember(inputs, k, |inputs|);
      }
      assert OutputModels(outputs) == old(OutputModels(outputs));
    }

    /**
     Lines 343-351; `sign` is the foreign signature under the caller's key, and false its error.  With different objects
     only the signed input changes.
     */
    method SignInput(h: Hash, inputIndex: nat, sign: bytes -> Option<bytes>, sighashFlag: byte)
      returns (ok: bool, ghost signatureMsg: bytes)
      requires inputIndex < |inputs|
      modifies inputs`scriptSig
      ensures ok <==> sign(signatureMsg).Some?
      ensures ok ==> inputs[inputIndex].scriptSig == sign(signatureMsg).value + [sighashFlag]
      ensures Distinct(inputs) ==>
                signatureMsg
                == V.SigMessage(h, old(InputModels(inputs)), OutputModels(outputs), inputIndex, sighashFlag)
      ensures Distinct(inputs) ==>
                InputModels(inputs) == SignedInputs(h, old(InputModels(inputs)), OutputModels(outputs),
                                                    Signature(inputIndex, sign, sighashFlag))
    {
      hide InputModels, OutputModels, V.SigMessage, SetAsideModels, PutBackModels, Encode, DoubleHash, Distinct;
      var msg := GatherSignatureDataForInput(h, inputIndex, sighashFlag);
      signatureMsg := msg;
      var signature := sign(msg);
      if signature == None {
        return false, msg;
      }
      SetScriptSig(inputIndex, signature.value + [sighashFlag]);
      ok := true;
    }

    /** Line 349. */
    method SetScriptSig(inputIndex: nat, sig: bytes)
      requires inputIndex < |inputs|
      modifies inputs`scriptSig
      ensures inputs[inputIndex].scriptSig == sig && OutputModels(outputs) == old(OutputModels(outputs))
      ensures Distinct(inputs) ==>
                var was := old(InputModels(inputs));
                InputModels(inputs) == was[inputIndex := was[inputIndex].(scriptSig := sig)]
    {
      hide InputModels, OutputModels;
      inputs[inputIndex].scriptSig := sig;
      assert OutputModels(outputs) == old(OutputModels(outputs));
    }
  }

  /**
   NewTransaction, lines 50-61.  The slices are copied but the outputs are not: tying them writes to the caller's
   objects, and an input that refers to one of them would change with it.
   */
  method BuildTransaction(h: Hash, inputs: seq<TransactionInput>, outputs: seq<TransactionOutput>)
    returns (t: Transaction)
    modifies outputs
    ensures fresh(t) && t.inputs == inputs && t.outputs == outputs
    ensures t.txid == TxId(h, old(InputModels(inputs)), old(OutputModels(outputs)))
    ensures t.txid == h(h(Encode(old(InputModels(inputs)), old(OutputModels(outputs)))))
    ensures t.blockHeight == 0 && !t.isCoinbase
    ensures OutputModels(outputs) == TiedModels(h, t.txid, outputs, old(OutputModels(outputs)))
    ensures Distinct(outputs) ==> OutputModels(outputs) == TieOutputs(h, t.txid, old(OutputModels(outputs)))
    ensures Referred(inputs) !! Objects(outputs) && Distinct(outputs) ==>
              t.Model() == NewTransaction(h, old(InputModels(inputs)), old(OutputModels(outputs)))
  {
    hide Encode, OutputId, InputModels, OutputModels, TieOutputs, TiedModels, Distinct;
    t := new Transaction(inputs, outputs, 0, false);
    assert InputModels(inputs) == old(InputModels(inputs)) && OutputModels(outputs) == old(OutputModels(outputs));
    t.UpdateOutputs(h);
  }

  // ---- runs of signing

  /** One call of signInput. */
  datatype Signature = Signature(index: nat, sign: bytes -> Option<bytes>, flag: byte)

  function SignedInputs(h: Hash, inputs: seq<Input>, outputs: seq<Output>, s: Signature): (r: seq<Input>)
    requires s.index < |inputs|
    ensures |r| == |inputs|
  {
    match s.sign(V.SigMessage(h, inputs, outputs, s.index, s.flag))
    case None => inputs
    case Some(sig) => inputs[s.index := inputs[s.index].(scriptSig := sig + [s.flag])]
  }

  /** Signatures made one after the other on one transaction. */
  function RunSigning(h: Hash, inputs: seq<Input>, outputs: seq<Output>, run: seq<Signature>): (r: seq<Input>)
    requires forall k :: 0 <= k < |run| ==> run[k].index < |inputs|
    ensures |r| == |inputs|
  {
    if |run| == 0 then inputs
    else SignedInputs(h, RunSigning(h, inputs, outputs, run[..|run| - 1]), outputs, run[|run| - 1])
  }

  predicate SameReferences(a: seq<Input>, b: seq<Input>) {
    |a| == |b| && forall i :: 0 <= i < |a| ==> a[i].outputReferred == b[i].outputReferred
  }

  /** The message of an input does not depend on any ScriptSig. */
  lemma MessageIndependent(h: Hash, a: seq<Input>, b: seq<Input>, outputs: seq<Output>, i: nat, flag: byte)
    requires SameReferences(a, b)
    ensures V.SigMessage(h, a, outputs, i, flag) == V.SigMessage(h, b, outputs, i, flag)
  {
    hide Encode;
    assert V.SigningInputs(a, i) == V.SigningInputs(b, i);
  }

  /** The foreign signature of the message that the transaction has for this input does not fail. */
  predicate Succeeds(h: Hash, inputs: seq<Input>, outputs: seq<Output>, s: Signature) {
    s.sign(V.SigMessage(h, inputs, outputs, s.index, s.flag)).Some?
  }

  /** The ScriptSig is this signature, made on the message that the transaction as it now is has for this input. */
  predicate SignedBy(h: Hash, inputs: seq<Input>, outputs: seq<Output>, s: Signature) {
    s.index < |inputs| &&
    match s.sign(V.SigMessage(h, inputs, outputs, s.index, s.flag))
    case None => false
    case Some(sig) => inputs[s.index].scriptSig == sig + [s.flag]
  }

  predicate LastOf(run: seq<Signature>, k: nat) {
    k < |run| && forall j :: k < j < |run| ==> run[j].index != run[k].index
  }

  /**
   Whatever the order, and even if an input is signed again: the last successful signature of an input matches the
   message of the finished transaction.
   */
  lemma {:induction false} RunSigned(h: Hash, inputs: seq<Input>, outputs: seq<Output>, run: seq<Signature>)
    requires forall k :: 0 <= k < |run| ==> run[k].index < |inputs|
    ensures SameReferences(RunSigning(h, inputs, outputs, run), inputs)
    ensures forall k: nat :: LastOf(run, k) && Succeeds(h, inputs, outputs, run[k]) ==>
              SignedBy(h, RunSigning(h, inputs, outputs, run), outputs, run[k])
  {
    hide V.SigMessage;
    if |run| > 0 {
      var n := |run| - 1;
      var front, last := run[..n], run[n];
      var before, after := RunSigning(h, inputs, outputs, front), RunSigning(h, inputs, outputs, run);
      RunSigned(h, inputs, outputs, front);
      MessageIndependent(h, before, inputs, outputs, last.index, last.flag);
      MessageIndependent(h, after, inputs, outputs, last.index, last.flag);
      hide RunSigning;
      forall k: nat | LastOf(run, k) && Succeeds(h, inputs, outputs, run[k])
        ensures SignedBy(h, after, outputs, run[k])
      {
        if k < n {
          LastOfFront(run, k);
          assert SignedBy(h, before, outputs, front[k]);
          MessageIndependent(h, after, before, outputs, run[k].index, run[k].flag);
        }
      }
    }
  }

  lemma LastOfFront(run: seq<Signature>, k: nat)
    requires LastOf(run, k) && k < |run| - 1
    ensures LastOf(run[..|run| - 1], k) && run[..|run| - 1][k] == run[k]
  {
    assert forall j :: k < j < |run| - 1 ==> run[..|run| - 1][j] == run[j];
  }

  /** An input that is never signed stays as it is. */
  lemma {:induction false} NeverSigned(h: Hash, inputs: seq<Input>, outputs: seq<Output>, run: seq<Signature>, i: nat)
    requires forall k :: 0 <= k < |run| ==> run[k].index < |inputs|
    requires i < |inputs| && forall k :: 0 <= k < |run| ==> run[k].index != i
    ensures RunSigning(h, inputs, outputs, run)[i] == inputs[i]
  {
    hide V.SigMessage;
    if |run| > 0 {
      NeverSigned(h, inputs, outputs, run[..|run| - 1], i);
    }
  }

  lemma {:induction false} FindLast(run: seq<Signature>, i: nat) returns (k: nat)
    requires exists j :: 0 <= j < |run| && run[j].index == i
    ensures LastOf(run, k) && run[k].index == i
  {
    var n := |run| - 1;
    if run[n].index == i {
      k := n;
    } else {
      var j :| 0 <= j < |run| && run[j].index == i;
      assert run[..n][j].index == i;
      k := FindLast(run[..n], i);
      forall j' | k < j' < |run| ensures run[j'].index != run[k].index {
        assert j' < n ==> run[..n][j'] == run[j'];
      }
    }
  }

  /** Every call of this signature succeeds and is accepted under the key of the output that the input spends. */
  ghost predicate Honest(c: V.Crypto, inputs: seq<Input>, s: Signature)
    requires s.index < |inputs|
  {
    var key := inputs[s.index].outputReferred.scriptPubKey;
    c.keyIsValid(key) && forall m :: s.sign(m).Some? && c.verify(m, s.sign(m).value, key)
  }

  /** What signInput signs, ValidateTransaction accepts: sign every input, in any order, with the key of its output. */
  lemma SignedIsAccepted(c: V.Crypto, rs: Records, tx: Tx, run: seq<Signature>)
    requires forall k :: 0 <= k < |run| ==> run[k].index < |tx.inputs| && Honest(c, tx.inputs, run[k])
    requires forall i :: 0 <= i < |tx.inputs| ==>
               && V.Backed(c.hash, rs, tx.inputs[i]) && tx.inputs[i].outputReferred.isNotSpent
               && exists k :: 0 <= k < |run| && run[k].index == i
    ensures V.InputsVerdict(c, rs, tx.(inputs := RunSigning(c.hash, tx.inputs, tx.outputs, run)), 0) == V.Valid
  {
    hide V.Backed, V.SigMessage, V.InputsVerdict, V.InputVerdict, Honest, RunSigning, SignedBy;
    var signed := tx.(inputs := RunSigning(c.hash, tx.inputs, tx.outputs, run));
    RunSigned(c.hash, tx.inputs, tx.outputs, run);
    forall i | 0 <= i < |signed.inputs| ensures V.InputVerdict(c, rs, signed, i) == V.Valid {
      assert V.Backed(c.hash, rs, tx.inputs[i]);
      var k := FindLast(run, i);
      HonestSucceeds(c, tx.inputs, run[k], V.SigMessage(c.hash, tx.inputs, tx.outputs, i, run[k].flag));
      InputAccepted(c, rs, tx, signed, run[k]);
    }
    V.InputsVerdictValid(c, rs, signed, 0);
  }

  lemma HonestSucceeds(c: V.Crypto, inputs: seq<Input>, s: Signature, m: bytes)
    requires s.index < |inputs| && Honest(c, inputs, s)
    ensures s.sign(m).Some?
  {
  }

  lemma InputAccepted(c: V.Crypto, rs: Records, tx: Tx, signed: Tx, s: Signature)
    requires s.index < |tx.inputs| && Honest(c, tx.inputs, s) && SameReferences(signed.inputs, tx.inputs)
               && signed.outputs == tx.outputs
    requires V.Backed(c.hash, rs, tx.inputs[s.index]) && tx.inputs[s.index].outputReferred.isNotSpent
    requires SignedBy(c.hash, signed.inputs, tx.outputs, s)
    ensures V.InputVerdict(c, rs, signed, s.index) == V.Valid
  {
    hide V.SigMessage, OutputId, Lookup;
    var m := V.SigMessage(c.hash, signed.inputs, signed.outputs, s.index, s.flag);
    var sig := s.sign(m).value + [s.flag];
    assert signed.inputs[s.index].scriptSig == sig;
    assert sig[|sig| - 1] == s.flag && sig[..|sig| - 1] == s.sign(m).value;
    assert s.sign(m).Some?;
  }

  /** Inputs that pass the duplicate check of ValidateTransaction are different objects. */
  lemma DistinctObjects(s: seq<TransactionInput>)
    requires Distinct(V.IdsOf(InputModels(s)))
    ensures Distinct(s)
  {
    forall i, j | 0 <= i < j < |s| ensures s[i] != s[j] {
      assert V.IdsOf(InputModels(s))[i] != V.IdsOf(InputModels(s))[j];
    }
  }

  /** Tying the outputs changes no byte: the identifier stays the one of the finished transaction. */
  lemma {:induction false} TiedKeepsBytes(h: Hash, txid: bytes, inputs: seq<Input>, outputs: seq<Output>)
    ensures TxId(h, inputs, TieOutputs(h, txid, outputs)) == TxId(h, inputs, outputs)
  {
    hide OutputId, EncodeOutput;
    SamePayments(TieOutputs(h, txid, outputs), outputs);
  }

  lemma {:induction false} SamePayments(a: seq<Output>, b: seq<Output>)
    requires |a| == |b| && forall i :: 0 <= i < |a| ==> SamePayment(a[i], b[i])
    ensures EncodeOutputs(a) == EncodeOutputs(b)
  {
    if |a| > 0 {
      assert EncodeOutput(a[0]) == EncodeOutput(b[0]);
      SamePayments(a[1..], b[1..]);
    }
  }
}
