/**
 Value in the ledger: each accepted block adds at most its subsidy, so no reachable ledger outgrows the halving
 schedule, and no sum over its entries wraps.
 */
module Supply {
  import opened Bytes
  import opened Serializer
  import opened Transactions
  import opened TxMetadata
  import opened Chainstates
  import opened Validation
  import opened Ledger

  // ---- the value of a ledger

  function SlotValue(s: Option<Coin>): nat {
    if s.Some? then s.value.value else 0
  }

  function SlotsValue(s: Slots): nat {
    if |s| == 0 then 0 else SlotsValue(s[..|s| - 1]) + SlotValue(s[|s| - 1])
  }

  ghost function Total(rs: Records): nat {
    if rs == map[] then 0
    else
      var t :| t in rs;
      SlotsValue(rs[t].slots) + Total(rs - {t})
  }

  lemma {:induction false} TotalWithout(rs: Records, t: bytes)
    requires t in rs
    ensures Total(rs) == SlotsValue(rs[t].slots) + Total(rs - {t})
    decreases |rs|
  {
    var u :| u in rs && Total(rs) == SlotsValue(rs[u].slots) + Total(rs - {u});
    if u != t {
      TotalWithout(rs - {u}, t);
      TotalWithout(rs - {t}, u);
      assert rs - {u} - {t} == rs - {t} - {u};
    }
  }

  lemma TotalPut(rs: Records, t: bytes, r: Record)
    ensures Total(rs[t := r]) == SlotsValue(r.slots) + Total(rs - {t})
    ensures t !in rs ==> Total(rs - {t}) == Total(rs)
  {
    TotalWithout(rs[t := r], t);
    assert rs[t := r] - {t} == rs - {t};
    if t !in rs {
      assert rs - {t} == rs;
    }
  }

  lemma {:induction false} EmptySlot(s: Slots, v: nat)
    requires v < |s|
    ensures SlotsValue(s[v := None]) + SlotValue(s[v]) == SlotsValue(s)
  {
    var n := |s| - 1;
    if v < n {
      EmptySlot(s[..n], v);
      assert s[v := None][..n] == s[..n][v := None];
    } else {
      assert s[v := None][..n] == s[..n];
    }
  }

  lemma {:induction false} NoValue(s: Slots)
    requires !HasUnspent(s)
    ensures SlotsValue(s) == 0
  {
    if |s| > 0 {
      NoValue(s[..|s| - 1]);
    }
  }

  /** Spending takes exactly the value of the entry. */
  lemma SpendTotal(rs: Records, p: Outpoint)
    requires At(rs, p).Some?
    ensures Total(Spend(rs, p.0, p.1)) + At(rs, p).value.value == Total(rs)
  {
    var slots := rs[p.0].slots[p.1 := None];
    TotalWithout(rs, p.0);
    EmptySlot(rs[p.0].slots, p.1);
    if HasUnspent(slots) {
      TotalPut(rs, p.0, Record(false, 0, slots));
    } else {
      NoValue(slots);
    }
  }

  function RefsValue(rs: Records, refs: seq<Outpoint>): nat {
    if |refs| == 0 then 0
    else RefsValue(rs, refs[..|refs| - 1]) + SlotValue(At(rs, refs[|refs| - 1]))
  }

  lemma {:induction false} SpendAllTotal(rs: Records, refs: seq<Outpoint>)
    requires Removable(rs, refs)
    ensures Total(SpendAll(rs, refs)) + RefsValue(rs, refs) == Total(rs)
  {
    if |refs| > 0 {
      var front, last := refs[..|refs| - 1], refs[|refs| - 1];
      assert refs == front + [last];
      RemovablePrefix(rs, front, [last]);
      SpendAllTotal(rs, front);
      SpendAllAt(rs, front, last);
      assert last !in front;
      SpendTotal(SpendAll(rs, front), last);
    }
  }

  function PutsValue(b: seq<(bytes, Record)>): nat {
    if |b| == 0 then 0 else PutsValue(b[..|b| - 1]) + SlotsValue(b[|b| - 1].1.slots)
  }

  /** The value of the records that the puts replace, one after the other. */
  function Overwritten(rs: Records, b: seq<(bytes, Record)>): nat {
    if |b| == 0 then 0
    else
      var before, t := PutAll(rs, b[..|b| - 1]), b[|b| - 1].0;
      Overwritten(rs, b[..|b| - 1]) + if t in before then SlotsValue(before[t].slots) else 0
  }

  /** A put adds its own value less that of the record it replaces. */
  lemma {:induction false} PutAllTotal(rs: Records, b: seq<(bytes, Record)>)
    ensures Total(PutAll(rs, b)) + Overwritten(rs, b) == Total(rs) + PutsValue(b)
  {
    if |b| > 0 {
      var front, last := b[..|b| - 1], b[|b| - 1];
      PutAllTotal(rs, front);
      var before := PutAll(rs, front);
      TotalPut(before, last.0, last.1);
      if last.0 in before {
        TotalWithout(before, last.0);
      }
    }
  }

  predicate AllNotSpent(outputs: seq<Output>) {
    forall i :: 0 <= i < |outputs| ==> outputs[i].isNotSpent
  }

  /** New keys add exactly their value. */
  lemma {:induction false} PutAllTotalNew(rs: Records, b: seq<(bytes, Record)>)
    requires forall i :: 0 <= i < |b| ==> b[i].0 !in rs
    requires forall i, j :: 0 <= i < j < |b| ==> b[i].0 != b[j].0
    ensures Total(PutAll(rs, b)) == Total(rs) + PutsValue(b)
    ensures forall t :: t in PutAll(rs, b) <==> t in rs || exists i :: 0 <= i < |b| && b[i].0 == t
  {
    hide Total;
    if |b| > 0 {
      var n := |b| - 1;
      var front := b[..n];
      PutAllTotalNew(rs, front);
      var before := PutAll(rs, front);
      forall i | 0 <= i < n ensures b[n].0 != front[i].0 {
        assert front[i] == b[i];
      }
      TotalPut(before, b[n].0, b[n].1);
      forall t ensures t in PutAll(rs, b) <==> t in rs || exists i :: 0 <= i < |b| && b[i].0 == t {
        assert b == front + [b[n]];
      }
    }
  }

  lemma {:induction false} OutputsValue(outputs: seq<Output>)
    ensures SlotsValue(SlotsOf(outputs)) <= SumOutputs(outputs)
    ensures AllNotSpent(outputs) ==> SlotsValue(SlotsOf(outputs)) == SumOutputs(outputs)
  {
    if |outputs| > 0 {
      var front := outputs[..|outputs| - 1];
      assert SlotsOf(outputs)[..|outputs| - 1] == SlotsOf(front);
      OutputsValue(front);
    }
  }

  // ---- fees and the coinbase

  const INITIAL_BLOCK_SUBSIDY: nat := 500 * 100000000
  const SUBSIDY_HALVING_INTERVAL: nat := 1000

  function ShiftRight(n: nat, k: nat): (r: nat)
    ensures r <= n
  {
    if k == 0 then n else ShiftRight(n, k - 1) / 2
  }

  function Subsidy(height: nat): (r: nat)
    ensures r <= INITIAL_BLOCK_SUBSIDY
  {
    ShiftRight(INITIAL_BLOCK_SUBSIDY, height / SUBSIDY_HALVING_INTERVAL)
  }

  /** Shifting right by k is dividing by 2^k. */
  lemma {:induction false} ShiftBounds(n: nat, k: nat)
    ensures ShiftRight(n, k) * Pow2(k) <= n < (ShiftRight(n, k) + 1) * Pow2(k)
  {
    if k > 0 {
      ShiftBounds(n, k - 1);
      HalfBounds(n, ShiftRight(n, k - 1), Pow2(k - 1));
    }
  }

  lemma HalfBounds(n: nat, m: nat, p: nat)
    requires m * p <= n < (m + 1) * p
    ensures m / 2 * (2 * p) <= n < (m / 2 + 1) * (2 * p)
  {
    var q := m / 2;
    assert q * (2 * p) == 2 * q * p && (q + 1) * (2 * p) == (2 * q + 2) * p;
    Product(2 * q, m, p);
    Product(m + 1, 2 * q + 2, p);
  }

  lemma Product(a: nat, b: nat, p: nat)
    requires a <= b
    ensures a * p <= b * p
  {
    assert b * p == a * p + (b - a) * p;
  }

  /** The subsidy is 500 coins of 10^8 ticks, halved every 1000 blocks and rounded down. */
  lemma SubsidyExact(height: nat)
    ensures Subsidy(height) * Pow2(height / 1000) <= 50_000_000_000 < (Subsidy(height) + 1) * Pow2(height / 1000)
  {
    ShiftBounds(INITIAL_BLOCK_SUBSIDY, height / SUBSIDY_HALVING_INTERVAL);
  }

  /** The fees of all transactions, or of all but the first, without wrapping. */
  function SumFees(txs: seq<Tx>, containsCB: bool): nat {
    if |txs| == 0 then 0
    else SumFees(txs[..|txs| - 1], containsCB) + if containsCB && |txs| == 1 then 0 else Fees(txs[|txs| - 1])
  }

  /** Lines 157-167. */
  method GetBlockFees(txs: seq<Tx>, containsCB: bool) returns (total: uint64)
    ensures total == SumFees(txs, containsCB) % TWO_64
  {
    total := 0;
    for i := 0 to |txs|
      invariant total == SumFees(txs[..i], containsCB) % TWO_64
    {
      assert txs[..i + 1][..i] == txs[..i];
      if containsCB && i == 0 {
        continue;
      }
      var fee := GetFees(txs[i]);
      AddModulo(SumFees(txs[..i], containsCB), fee);
      total := (total + fee) % TWO_64;
    }
    assert txs[..|txs|] == txs;
  }

  predicate CoinbaseAccepted(txs: seq<Tx>, height: uint32)
    requires |txs| > 0
  {
    SumOutputs(txs[0].outputs) % TWO_64 <= (Subsidy(height) + SumFees(txs, true)) % TWO_64
  }

  /** Lines 287-304; an empty block is an index out of range in the source. */
  method ValidateCoinbase(txs: seq<Tx>, minedBlockHeight: uint32) returns (ok: bool)
    requires |txs| > 0
    ensures ok <==> CoinbaseAccepted(txs, minedBlockHeight)
    ensures ok <==> SumOutputs(txs[0].outputs) % TWO_64
                    <= (Subsidy(minedBlockHeight) + SumFees(txs[1..], false)) % TWO_64
  {
    var coinbaseValue := AddValues(txs[0].outputs);
    var halvings := minedBlockHeight / SUBSIDY_HALVING_INTERVAL;
    var subsidy := ShiftRight(INITIAL_BLOCK_SUBSIDY, halvings);
    var fees := GetBlockFees(txs, true);
    AddModulo(SumFees(txs, true), subsidy);
    ok := coinbaseValue <= (subsidy + fees) % TWO_64;
    assert txs == [txs[0]] + txs[1..];
    FeesBehindCoinbase(txs[0], txs[1..]);
  }

  // ---- one block

  /** Every output by itself is a valid amount, which the running sum alone does not check. */
  predicate Tame(tx: Tx) {
    forall i :: 0 <= i < |tx.outputs| ==> tx.outputs[i].value <= MAX_VALID_AMOUNT
  }

  /** The outputs of the coinbase do not wrap, and every other output is a valid amount. */
  predicate TameBlock(txs: seq<Tx>) {
    |txs| > 0 && SumOutputs(txs[0].outputs) < TWO_64 && forall i :: 1 <= i < |txs| ==> Tame(txs[i])
  }

  /** Buffers that a machine holds. */
  predicate SizedBlock(txs: seq<Tx>) {
    forall i :: 1 <= i < |txs| ==> Sized(txs[i])
  }

  /** Accepted outputs of which one is no valid amount wrap the running sum. */
  lemma UntameSum(outputs: seq<Output>)
    requires RunningSumsValid(outputs) && exists i :: 0 <= i < |outputs| && outputs[i].value > MAX_VALID_AMOUNT
    ensures SumOutputs(outputs) >= TWO_64
  {
    OutputSumBound(outputs);
    assert outputs[..|outputs|] == outputs;
    ModuloSmall(SumOutputs(outputs));
  }

  lemma {:induction false} BackedValue(h: Hash, rs: Records, inputs: seq<Input>)
    requires forall i :: 0 <= i < |inputs| ==> Backed(h, rs, inputs[i])
    ensures RefsValue(rs, RefsOf(inputs)) == SumInputs(inputs)
  {
    hide OutputId, Lookup;
    if |inputs| > 0 {
      var front := inputs[..|inputs| - 1];
      BackedValue(h, rs, front);
      assert RefsOf(inputs)[..|inputs| - 1] == RefsOf(front);
      assert Backed(h, rs, inputs[|inputs| - 1]);
    }
  }

  lemma {:induction false} RefsValueConcat(rs: Records, a: seq<Outpoint>, b: seq<Outpoint>)
    ensures RefsValue(rs, a + b) == RefsValue(rs, a) + RefsValue(rs, b)
  {
    if |b| == 0 {
      assert a + b == a;
    } else {
      assert (a + b)[..|a + b| - 1] == a + b[..|b| - 1];
      RefsValueConcat(rs, a, b[..|b| - 1]);
    }
  }

  /**
   What an accepted transaction takes and pays, and its 64-bit fee: the fee is the true difference if and only if inputs
   and outputs wrap equally often, so for inputs that do not wrap if and only if each output is a valid amount.
   */
  lemma AcceptedFees(c: Crypto, rs: Records, tx: Tx)
    requires TxVerdict(c, rs, tx) == Valid && Sized(tx)
    ensures SumOutputs(tx.outputs) + Fees(tx) + TWO_64 * Laps(tx) == SumInputs(tx.inputs)
    ensures SumInputs(tx.inputs) < TWO_64 ==>
              (SumOutputs(tx.outputs) + Fees(tx) == SumInputs(tx.inputs) <==> Tame(tx))
    ensures RefsValue(rs, RefsOf(tx.inputs)) == SumInputs(tx.inputs)
    ensures !Tame(tx) ==> SumOutputs(tx.outputs) >= TWO_64
  {
    hide SumInputs, SumOutputs, Encode, Distinct, InputVerdict, TxVerdict, Backed, RunningSumsValid, RefsValue;
    AcceptedIff(c, rs, tx);
    AcceptedInputs(c, rs, tx);
    BackedValue(c.hash, rs, tx.inputs);
    OutputSumBound(tx.outputs);
    FullSumValid(tx.outputs);
    FeeArithmetic(SumInputs(tx.inputs), SumOutputs(tx.outputs), MinimumFees(tx));
    if !Tame(tx) {
      UntameSum(tx.outputs);
    }
  }

  /** A transaction of 85 bytes that takes 1000 and pays out 5 and 2^64 - 3. */
  function WrappingTx(h: Hash): Tx {
    var input := Input(NewTransactionOutput(h, seq(32, _ => 0), 0, 1000, []), [SIGHASH_ALL]);
    NewTransaction(h, [input],
                   [NewTransactionOutput(h, [], 0, 5, []), NewTransactionOutput(h, [], 0, TWO_64 - 3, [])])
  }

  /** Accepted wherever its input is an unspent entry and its signature verifies, it pays out more than it takes. */
  lemma FeesCounterexample(c: Crypto, rs: Records)
    requires Lookup(rs, seq(32, _ => 0), 0) == Some(Coin(1000, [])) && c.keyIsValid([])
    requires c.verify(SigMessage(c.hash, WrappingTx(c.hash).inputs, WrappingTx(c.hash).outputs, 0, SIGHASH_ALL), [], [])
    ensures var tx := WrappingTx(c.hash);
            TxVerdict(c, rs, tx) == Valid && Sized(tx) && !Tame(tx) && SumOutputs(tx.outputs) > SumInputs(tx.inputs)
  {
    var tx := WrappingTx(c.hash);
    WrappingLength(c.hash);
    var a, b := tx.outputs[0], tx.outputs[1];
    assert tx.outputs == [a, b];
    OutputSumCounterexample(a, b);
    SumOfTwo(a, b);
    assert tx.inputs[..0] == [] && SumInputs(tx.inputs) == 1000;
    hide OutputId, Encode, SumOutputs, SumInputs, RunningSumsValid, SigMessage;
    assert InputVerdict(c, rs, tx, 0) == Valid by {
      assert tx.inputs[0].scriptSig[..0] == [];
    }
    AcceptedIff(c, rs, tx);
  }

  lemma WrappingLength(h: Hash)
    ensures var tx := WrappingTx(h); |Encode(tx.inputs, tx.outputs)| == 85
  {
    hide OutputId, TxId, BE64, BE32;
    var tx := WrappingTx(h);
    var i, a, b := tx.inputs[0], tx.outputs[0], tx.outputs[1];
    assert tx.inputs == [i] && tx.outputs == [a, b] && [i][1..] == [] && [a, b][1..] == [b] && [b][1..] == [];
    assert |EncodeInput(i)| == 45 && |EncodeOutput(a)| == 16 && |EncodeOutput(b)| == 16;
    hide EncodeInput, EncodeOutput, WrappingTx;
    assert |EncodeInputs([i])| == 45;
    assert |EncodeOutputs([b])| == 16;
    assert |EncodeOutputs([a, b])| == 32;
  }

  /** How much oftener the inputs wrap than the outputs. */
  function Laps(tx: Tx): int {
    SumInputs(tx.inputs) / TWO_64 - SumOutputs(tx.outputs) / TWO_64
  }

  lemma FullSumValid(outputs: seq<Output>)
    requires RunningSumsValid(outputs)
    ensures SumOutputs(outputs) % TWO_64 <= MAX_VALID_AMOUNT
  {
    assert outputs[..|outputs|] == outputs;
  }

  lemma FeeArithmetic(paidIn: nat, paidOut: nat, fee: nat)
    requires paidOut % TWO_64 <= MAX_VALID_AMOUNT && fee < 0x8000_0000_0000_0000
    requires paidIn % TWO_64 >= (paidOut % TWO_64 + fee) % TWO_64
    ensures paidOut + (paidIn - paidOut) % TWO_64 + TWO_64 * (paidIn / TWO_64 - paidOut / TWO_64) == paidIn
  {
    ModuloSmall(paidOut % TWO_64 + fee);
    SubModulo(paidIn, paidOut);
    ModuloSmall(paidIn % TWO_64 - paidOut % TWO_64);
  }

  /** All outputs of transactions 1.. . */
  function SumBlockOutputs(txs: seq<Tx>): nat {
    if |txs| <= 1 then 0 else SumBlockOutputs(txs[..|txs| - 1]) + SumOutputs(txs[|txs| - 1].outputs)
  }

  /** One transaction with an output that is no valid amount makes the outputs of its block wrap. */
  lemma {:induction false} UntameBlock(c: Crypto, rs: Records, txs: seq<Tx>)
    requires BlockValid(c, rs, txs) && exists i :: 1 <= i < |txs| && !Tame(txs[i])
    ensures SumBlockOutputs(txs) >= TWO_64
  {
    hide TxVerdict, SumOutputs;
    var n := |txs| - 1;
    if Tame(txs[n]) {
      var i :| 1 <= i < n && !Tame(txs[i]);
      assert txs[..n][i] == txs[i];
      BlockIdsPrefix(txs, n);
      UntameBlock(c, rs, txs[..n]);
    } else {
      assert TxVerdict(c, rs, txs[n]) == Valid;
      AcceptedIff(c, rs, txs[n]);
      UntameSum(txs[n].outputs);
    }
  }

  function BlockLaps(txs: seq<Tx>): int {
    if |txs| <= 1 then 0 else BlockLaps(txs[..|txs| - 1]) + Laps(txs[|txs| - 1])
  }

  /**
   Value is conserved: what transactions 1.. take from the ledger is what they pay out plus their fees, but for the sums
   that wrap; if the references are worth less than 2^64, if and only if all their outputs are valid amounts.
   */
  lemma BlockConserves(c: Crypto, rs: Records, txs: seq<Tx>)
    requires BlockValid(c, rs, txs) && SizedBlock(txs)
    ensures RefsValue(rs, BlockRefs(txs, true)) == SumBlockOutputs(txs) + SumFees(txs, true) + TWO_64 * BlockLaps(txs)
    ensures RefsValue(rs, BlockRefs(txs, true)) < TWO_64 ==>
              (RefsValue(rs, BlockRefs(txs, true)) == SumBlockOutputs(txs) + SumFees(txs, true)
               <==> forall i :: 1 <= i < |txs| ==> Tame(txs[i]))
  {
    hide BlockValid, Tame, Sized, SumFees, BlockRefs, RefsValue, SumBlockOutputs, BlockLaps;
    ConservesUpToLaps(c, rs, txs);
    if exists i :: 1 <= i < |txs| && !Tame(txs[i]) {
      UntameBlock(c, rs, txs);
    } else if RefsValue(rs, BlockRefs(txs, true)) < TWO_64 {
      TameLaps(c, rs, txs);
    }
  }

  lemma {:induction false} ConservesUpToLaps(c: Crypto, rs: Records, txs: seq<Tx>)
    requires BlockValid(c, rs, txs) && SizedBlock(txs)
    ensures RefsValue(rs, BlockRefs(txs, true)) == SumBlockOutputs(txs) + SumFees(txs, true) + TWO_64 * BlockLaps(txs)
  {
    hide Fees, Tame, Sized, TxVerdict, SumOutputs, SumInputs, Laps;
    if |txs| > 1 {
      var n := |txs| - 1;
      var front := txs[..n];
      BlockIdsPrefix(txs, n);
      RefsValueConcat(rs, BlockRefs(front, true), RefsOf(txs[n].inputs));
      assert TxVerdict(c, rs, txs[n]) == Valid;
      ConservesUpToLaps(c, rs, front);
      AcceptedFees(c, rs, txs[n]);
    } else if |txs| == 1 {
      assert txs[..0] == [];
      assert BlockRefs(txs, true) == [];
    }
  }

  lemma {:induction false} TameLaps(c: Crypto, rs: Records, txs: seq<Tx>)
    requires BlockValid(c, rs, txs) && SizedBlock(txs) && (forall i :: 1 <= i < |txs| ==> Tame(txs[i]))
    requires RefsValue(rs, BlockRefs(txs, true)) < TWO_64
    ensures BlockLaps(txs) == 0
  {
    hide Fees, Tame, Sized, TxVerdict, SumOutputs, SumInputs, Laps;
    if |txs| > 1 {
      var n := |txs| - 1;
      var front := txs[..n];
      BlockIdsPrefix(txs, n);
      RefsValueConcat(rs, BlockRefs(front, true), RefsOf(txs[n].inputs));
      assert TxVerdict(c, rs, txs[n]) == Valid;
      AcceptedFees(c, rs, txs[n]);
      TameLaps(c, rs, front);
    }
  }

  predicate AllOutputsNotSpent(txs: seq<Tx>) {
    forall i :: 0 <= i < |txs| ==> AllNotSpent(txs[i].outputs)
  }

  lemma {:induction false} PutsBound(txs: seq<Tx>)
    requires |txs| > 0
    ensures PutsValue(Puts(txs)) <= SumOutputs(txs[0].outputs) + SumBlockOutputs(txs)
    ensures AllOutputsNotSpent(txs) ==> PutsValue(Puts(txs)) == SumOutputs(txs[0].outputs) + SumBlockOutputs(txs)
  {
    hide SumOutputs, SlotsValue, AllNotSpent;
    var n := |txs| - 1;
    assert Puts(txs)[..n] == Puts(txs[..n]);
    OutputsValue(txs[n].outputs);
    if n > 0 {
      assert txs[..n][0] == txs[0];
      PutsBound(txs[..n]);
    } else {
      assert Puts(txs[..0]) == [];
    }
  }

  /** Twice the first period at full subsidy: what the halving schedule can ever mint. */
  const SUPPLY_LIMIT: nat := 2 * SUBSIDY_HALVING_INTERVAL * INITIAL_BLOCK_SUBSIDY

  /** A block that ValidateBlockTx and ValidateCoinbase accept and ConfirmAsValid confirms. */
  predicate Accepted(c: Crypto, rs: Records, txs: seq<Tx>, height: uint32, skip: bool) {
    && |txs| > 0 && SizedBlock(txs) && BlockValid(c, rs, txs) && CoinbaseAccepted(txs, height)
    && Confirms(rs, txs, skip)
  }

  /**
   A coinbase that ValidateCoinbase accepts pays at most the subsidy and the fees if and only if its outputs do not
   wrap.
   */
  lemma CoinbaseBound(txs: seq<Tx>, height: uint32)
    requires |txs| > 0 && CoinbaseAccepted(txs, height)
    ensures SumOutputs(txs[0].outputs) < TWO_64 ==> SumOutputs(txs[0].outputs) <= Subsidy(height) + SumFees(txs, true)
    ensures Subsidy(height) + SumFees(txs, true) < TWO_64 ==>
              (SumOutputs(txs[0].outputs) <= Subsidy(height) + SumFees(txs, true)
               <==> SumOutputs(txs[0].outputs) < TWO_64)
  {
    hide Subsidy, SumFees, SumOutputs;
    ModuloSmall(SumOutputs(txs[0].outputs));
    ModuloSmall(Subsidy(height) + SumFees(txs, true));
  }

  /** What any confirmed block makes of the value of the ledger, whatever wraps and whatever it replaces. */
  lemma BlockTotal(rs: Records, txs: seq<Tx>, skip: bool)
    requires Confirms(rs, txs, skip)
    ensures var refs, puts := BlockRefs(txs, skip), Puts(txs);
            Total(Confirmed(rs, txs, skip)) + Overwritten(SpendAll(rs, refs), puts) + RefsValue(rs, refs)
            == Total(rs) + PutsValue(puts)
  {
    hide Removable, SpendAll, PutAll, Total, RefsValue, PutsValue, Overwritten, BlockRefs, Puts, AllUnspent;
    SpendAllTotal(rs, BlockRefs(txs, skip));
    PutAllTotal(SpendAll(rs, BlockRefs(txs, skip)), Puts(txs));
  }

  /** One accepted block whose sums do not wrap adds at most its subsidy. */
  lemma BlockSupply(c: Crypto, rs: Records, txs: seq<Tx>, height: uint32, skip: bool)
    requires Accepted(c, rs, txs, height, skip) && TameBlock(txs) && Total(rs) < SUPPLY_LIMIT
    ensures Total(Confirmed(rs, txs, skip)) <= Total(rs) + Subsidy(height)
  {
    hide CoinbaseAccepted, BlockValid, Removable, SpendAll, Confirmed, Subsidy, Total, RefsValue, PutsValue,
      Overwritten, SumBlockOutputs, SumFees, SumOutputs, BlockRefs, AllUnspent, Puts, Tame, Sized;
    var refs := BlockRefs(txs, skip);
    BlockTotal(rs, txs, skip);
    SpendAllTotal(rs, refs);
    RefsWithCoinbase(txs);
    RefsValueConcat(rs, RefsOf(txs[0].inputs), BlockRefs(txs, true));
    assert RefsValue(rs, BlockRefs(txs, true)) <= RefsValue(rs, refs);
    BlockConserves(c, rs, txs);
    PutsBound(txs);
    CoinbaseBound(txs, height);
  }

  /** The identifiers of the block are its own, and its outputs are not spent yet. */
  predicate New(rs: Records, txs: seq<Tx>) {
    && (forall i :: 0 <= i < |txs| ==> txs[i].txid !in rs)
    && (forall i, j :: 0 <= i < j < |txs| ==> txs[i].txid != txs[j].txid)
    && AllOutputsNotSpent(txs)
  }

  lemma {:induction false} SpendAllKeys(rs: Records, refs: seq<Outpoint>)
    ensures SpendAll(rs, refs).Keys <= rs.Keys
  {
    if |refs| > 0 {
      SpendAllKeys(rs, refs[..|refs| - 1]);
    }
  }

  /** One accepted block whose sums wrap mints more than 2^64. */
  lemma WrappedBlock(c: Crypto, rs: Records, txs: seq<Tx>, skip: bool)
    requires |txs| > 0 && BlockValid(c, rs, txs) && New(rs, txs) && !TameBlock(txs)
    ensures Total(Confirmed(rs, txs, skip)) >= TWO_64
  {
    hide BlockValid, SpendAll, PutAll, Total, PutsValue, SumBlockOutputs, SumOutputs, BlockRefs, AllOutputsNotSpent;
    var spent := SpendAll(rs, BlockRefs(txs, skip));
    SpendAllKeys(rs, BlockRefs(txs, skip));
    PutAllTotalNew(spent, Puts(txs));
    PutsBound(txs);
    if SumOutputs(txs[0].outputs) < TWO_64 {
      UntameBlock(c, rs, txs);
    }
  }

  /** For a new block, the bound of one subsidy holds if and only if its sums do not wrap. */
  lemma BlockSupplyExact(c: Crypto, rs: Records, txs: seq<Tx>, height: uint32, skip: bool)
    requires Accepted(c, rs, txs, height, skip) && New(rs, txs) && Total(rs) < SUPPLY_LIMIT
    ensures Total(Confirmed(rs, txs, skip)) <= Total(rs) + Subsidy(height) <==> TameBlock(txs)
  {
    hide CoinbaseAccepted, BlockValid, Confirms, New, TameBlock, SizedBlock, Total;
    if TameBlock(txs) {
      BlockSupply(c, rs, txs, height, skip);
    } else {
      WrappedBlock(c, rs, txs, skip);
    }
  }

  /** A coinbase whose two outputs sum to 2^64 is accepted in every ledger at every height, and mints 2^64. */
  lemma CoinbaseCounterexample(c: Crypto, rs: Records, coinbase: Tx, a: Output, b: Output, height: uint32)
    requires coinbase.outputs == [a, b] && a.value == TWO_64 - 1 && b.value == 1 && a.isNotSpent && b.isNotSpent
    ensures Accepted(c, rs, [coinbase], height, true)
    ensures coinbase.txid !in rs ==> Total(Confirmed(rs, [coinbase], true)) == Total(rs) + TWO_64
  {
    hide Subsidy, BlockRefs, SumFees, SumOutputs, PutAll, Puts, Total;
    Alone(coinbase);
    SumOfTwo(a, b);
    assert SlotsOf([a, b])[0].Some?;
    if coinbase.txid !in rs {
      MintedAlone(rs, coinbase);
    }
  }

  lemma SumOfTwo(a: Output, b: Output)
    ensures SumOutputs([a, b]) == a.value + b.value
  {
    assert [a, b][..1] == [a] && [a][..0] == [];
    assert SumOutputs([a]) == a.value;
  }

  lemma MintedAlone(rs: Records, coinbase: Tx)
    requires coinbase.txid !in rs && AllNotSpent(coinbase.outputs)
    ensures Total(Confirmed(rs, [coinbase], true)) == Total(rs) + SumOutputs(coinbase.outputs)
  {
    var txs := [coinbase];
    Alone(coinbase);
    assert SpendAll(rs, []) == rs;
    PutAllTotalNew(rs, Puts(txs));
    PutsBound(txs);
    assert SumBlockOutputs(txs) == 0;
  }

  lemma Alone(tx: Tx)
    ensures BlockRefs([tx], true) == [] && BlockIds([tx]) == [] && SumFees([tx], true) == 0
  {
    var txs := [tx];
    assert |txs| == 1 && txs[..0] == [];
    assert BlockIds(txs) == [];
    assert SumFees(txs[..0], true) == 0;
  }

  /** Runs exist: a coinbase within its subsidy, alone in its block, is accepted in every ledger. */
  lemma CoinbaseAlone(c: Crypto, rs: Records, coinbase: Tx, msg: bytes, value: uint64, key: bytes, last: uint32,
                      height: uint32)
    requires Some(coinbase) == NewCoinbaseTransaction(c.hash, msg, value, key, last) && value <= Subsidy(height)
    ensures Accepted(c, rs, [coinbase], height, true) && TameBlock([coinbase])
  {
    hide Subsidy, TxId, OutputId, BE32;
    var txs := [coinbase];
    Alone(coinbase);
    var outputs := coinbase.outputs;
    assert outputs[..0] == [] && SumOutputs(outputs) == value;
    assert SlotsOf(outputs)[0].Some?;
    ModuloSmall(value);
    ModuloSmall(Subsidy(height));
  }

  lemma {:induction false} FeesBehindCoinbase(coinbase: Tx, txs: seq<Tx>)
    ensures SumFees([coinbase] + txs, true) == SumFees(txs, false)
  {
    hide Fees;
    var all := [coinbase] + txs;
    if |txs| == 0 {
      assert all == [coinbase];
      Alone(coinbase);
    } else {
      var n := |txs| - 1;
      assert all[..|all| - 1] == [coinbase] + txs[..n];
      FeesBehindCoinbase(coinbase, txs[..n]);
    }
  }

  /** The fees of a block are those of its transactions, one by one. */
  lemma {:induction false} FeesOneByOne(tx: Tx, txs: seq<Tx>)
    ensures SumFees([], false) == 0 && SumFees([tx] + txs, false) == Fees(tx) + SumFees(txs, false)
  {
    hide Fees;
    var all := [tx] + txs;
    if |txs| == 0 {
      assert all == [tx] && [tx][..0] == [];
    } else {
      var n := |txs| - 1;
      assert all[..|all| - 1] == [tx] + txs[..n];
      FeesOneByOne(tx, txs[..n]);
    }
  }

  /** core/block.go, lines 184-196: the coinbase that MineBlock puts in front of its transactions is accepted. */
  lemma MinedCoinbase(h: Hash, txs: seq<Tx>, coinbase: Tx, msg: bytes, key: bytes, last: uint32)
    requires var value := (Subsidy((last + 1) % TWO_32) + SumFees(txs, false)) % TWO_64;
             Some(coinbase) == NewCoinbaseTransaction(h, msg, value, key, last)
    ensures CoinbaseAccepted([coinbase] + txs, (last + 1) % TWO_32)
    ensures SumOutputs(coinbase.outputs) <= MAX_VALID_AMOUNT && HasUnspent(RecordOf(coinbase).slots)
  {
    hide Subsidy, TxId, OutputId, BE32, SumFees;
    FeesBehindCoinbase(coinbase, txs);
    var outputs := coinbase.outputs;
    assert outputs[..0] == [] && SumOutputs(outputs) == outputs[0].value;
    assert SlotsOf(outputs)[0].Some?;
    ModuloSmall(outputs[0].value);
  }

  // ---- runs

  /** Everything minted by blocks 1..n. */
  function Minted(n: nat): nat {
    if n == 0 then 0 else Minted(n - 1) + Subsidy(n)
  }

  /** Every block of a period mints what the first of them mints. */
  lemma {:induction false} MintedInPeriod(n: nat, m: nat)
    requires m > 0 && (n + 1) / 1000 == (n + m) / 1000
    ensures Minted(n + m) == Minted(n) + m * Subsidy(n + 1)
  {
    hide ShiftRight;
    if m > 1 {
      MintedInPeriod(n, m - 1);
    }
  }

  /** So the 1000 blocks from block 1000 j on mint 50 * 10^12 ticks over 2^j, up to rounding. */
  lemma MintedPerPeriod(j: nat)
    requires j > 0
    ensures var minted := Minted(1000 * j + 999) - Minted(1000 * j - 1);
            minted * Pow2(j) <= 50_000_000_000_000 < (minted + 1000) * Pow2(j)
  {
    MintedInPeriod(1000 * j - 1, 1000);
    SubsidyExact(1000 * j);
    hide Subsidy, Minted, Pow2;
    Thousand(Subsidy(1000 * j), Pow2(j));
  }

  lemma Thousand(s: nat, p: nat)
    ensures (1000 * s) * p == 1000 * (s * p) && (1000 * s + 1000) * p == 1000 * ((s + 1) * p)
  {
  }

  /** c times a, by addition. */
  function Times(c: nat, a: nat): nat {
    if c == 0 then 0 else a + Times(c - 1, a)
  }

  lemma {:induction false} TimesDouble(c: nat, a: nat, b: nat)
    requires 2 * b <= a
    ensures Times(2 * c, b) <= Times(c, a)
  {
    if c > 0 {
      TimesDouble(c - 1, a, b);
      assert Times(2 * c, b) == b + (b + Times(2 * c - 2, b));
    }
  }

  lemma {:induction false} TimesProduct(c: nat, a: nat)
    ensures Times(c, a) == c * a
  {
    if c > 0 {
      TimesProduct(c - 1, a);
    }
  }

  /** What the rest of the current period and one more would mint at the current subsidy. */
  function Remaining(n: nat): nat {
    var i := SUBSIDY_HALVING_INTERVAL;
    Times(2 * i - 1 - n % i, ShiftRight(INITIAL_BLOCK_SUBSIDY, n / i))
  }

  lemma RemainingStep(n: nat)
    requires n > 0
    ensures Subsidy(n) + Remaining(n) <= Remaining(n - 1)
  {
    var i := SUBSIDY_HALVING_INTERVAL;
    if n % i == 0 {
      assert (n - 1) / i == n / i - 1 && (n - 1) % i == i - 1;
      TimesDouble(i, ShiftRight(INITIAL_BLOCK_SUBSIDY, n / i - 1), ShiftRight(INITIAL_BLOCK_SUBSIDY, n / i));
    } else {
      assert (n - 1) / i == n / i && (n - 1) % i == n % i - 1;
    }
  }

  lemma {:induction false} MintedBound(n: nat)
    ensures INITIAL_BLOCK_SUBSIDY + Minted(n) + Remaining(n) <= SUPPLY_LIMIT
  {
    if n > 0 {
      MintedBound(n - 1);
      RemainingStep(n);
      hide Remaining, Subsidy;
    } else {
      assert ShiftRight(INITIAL_BLOCK_SUBSIDY, 0) == INITIAL_BLOCK_SUBSIDY;
      TimesProduct(2 * SUBSIDY_HALVING_INTERVAL - 1, INITIAL_BLOCK_SUBSIDY);
    }
  }

  /** No schedule of any length reaches the limit, and the limit is a valid amount. */
  lemma MintedBelowLimit(n: nat)
    ensures Minted(n) < SUPPLY_LIMIT <= MAX_VALID_AMOUNT
  {
    MintedBound(n);
    hide Remaining, Minted;
  }

  /** A run from the empty ledger, block by block; block i has height i + 1. */
  predicate Run(c: Crypto, blocks: seq<seq<Tx>>, states: seq<Records>, skip: bool) {
    && |states| == |blocks| + 1 && |blocks| < TWO_32 - 1 && states[0] == map[]
    && forall i :: 0 <= i < |blocks| ==>
         Accepted(c, states[i], blocks[i], i + 1, skip) && states[i + 1] == Confirmed(states[i], blocks[i], skip)
  }

  /** In every ledger reached through blocks whose sums do not wrap, the entries are worth at most what was minted. */
  lemma {:induction false} SupplyBound(c: Crypto, blocks: seq<seq<Tx>>, states: seq<Records>, skip: bool, n: nat)
    requires Run(c, blocks, states, skip) && n <= |blocks| && forall i :: 0 <= i < n ==> TameBlock(blocks[i])
    ensures Total(states[n]) <= Minted(n) < SUPPLY_LIMIT <= MAX_VALID_AMOUNT
  {
    hide Accepted, Confirmed, Subsidy, TameBlock;
    MintedBelowLimit(n);
    if n > 0 {
      SupplyBound(c, blocks, states, skip, n - 1);
      MintedBelowLimit(n - 1);
      BlockSupply(c, states[n - 1], blocks[n - 1], n, skip);
    }
  }

  /** Over a run of new blocks the bound holds throughout if and only if no block's sums wrap. */
  lemma SupplyExact(c: Crypto, blocks: seq<seq<Tx>>, states: seq<Records>, skip: bool, n: nat)
    requires Run(c, blocks, states, skip) && n <= |blocks|
    requires forall i :: 0 <= i < n ==> New(states[i], blocks[i])
    ensures (forall m :: 0 <= m <= n ==> Total(states[m]) <= Minted(m))
       <==> forall i :: 0 <= i < n ==> TameBlock(blocks[i])
  {
    hide Confirmed, TameBlock, New, BlockValid, Confirms, CoinbaseAccepted, Total, Minted;
    if forall i :: 0 <= i < n ==> TameBlock(blocks[i]) {
      forall m | 0 <= m <= n ensures Total(states[m]) <= Minted(m) {
        SupplyBound(c, blocks, states, skip, m);
      }
    } else {
      var i :| 0 <= i < n && !TameBlock(blocks[i]);
      MintedBelowLimit(i + 1);
      WrappedBlock(c, states[i], blocks[i], skip);
      assert Total(states[i + 1]) > Minted(i + 1);
    }
  }

  /** Over a run as written in which no transaction has the all-zero identifier, the ledger never holds it. */
  lemma {:induction false} NeverPlaceholder(c: Crypto, blocks: seq<seq<Tx>>, states: seq<Records>, n: nat)
    requires Run(c, blocks, states, false) && n <= |blocks|
    requires forall i, j :: 0 <= i < n && 0 <= j < |blocks[i]| ==> blocks[i][j].txid != Placeholder().0
    ensures Placeholder().0 !in states[n]
  {
    hide Accepted, BlockRefs;
    if n > 0 {
      NeverPlaceholder(c, blocks, states, n - 1);
      var rs, txs, t := states[n - 1], blocks[n - 1], Placeholder().0;
      SpendAllKeys(rs, BlockRefs(txs, false));
      LastPutIn(Puts(txs), t);
      PutAllLast(SpendAll(rs, BlockRefs(txs, false)), Puts(txs), t);
    }
  }

  /** So no such run, as written, ever confirms a block with a coinbase made by NewCoinbaseTransaction. */
  lemma NoBuiltCoinbase(c: Crypto, blocks: seq<seq<Tx>>, states: seq<Records>, n: nat, msg: bytes, value: uint64,
                        key: bytes, height: uint32)
    requires Run(c, blocks, states, false) && n < |blocks|
    requires forall i, j :: 0 <= i < n && 0 <= j < |blocks[i]| ==> blocks[i][j].txid != Placeholder().0
    ensures Some(blocks[n][0]) != NewCoinbaseTransaction(c.hash, msg, value, key, height)
  {
    hide BlockValid, Confirmed, CoinbaseAccepted, Removable, NewCoinbaseTransaction;
    NeverPlaceholder(c, blocks, states, n);
    if Some(blocks[n][0]) == NewCoinbaseTransaction(c.hash, msg, value, key, height) {
      CoinbaseBlocksAsWritten(c, states[n], blocks[n], msg, value, key, height);
    }
  }

  /**
   So in every such ledger no sum of inputs wraps, and the fee of an accepted transaction is the true difference if
   and only if its outputs are valid amounts.
   */
  lemma NothingWraps(c: Crypto, blocks: seq<seq<Tx>>, states: seq<Records>, skip: bool, n: nat, tx: Tx)
    requires Run(c, blocks, states, skip) && n <= |blocks| && forall i :: 0 <= i < n ==> TameBlock(blocks[i])
    requires TxVerdict(c, states[n], tx) == Valid && Sized(tx)
    ensures SumInputs(tx.inputs) < SUPPLY_LIMIT
    ensures SumOutputs(tx.outputs) + Fees(tx) == SumInputs(tx.inputs) <==> Tame(tx)
  {
    hide Accepted, Confirmed, TxVerdict, Sized, TameBlock, Tame;
    SupplyBound(c, blocks, states, skip, n);
    AcceptedInputs(c, states[n], tx);
    BackedValue(c.hash, states[n], tx.inputs);
    assert Removable(states[n], RefsOf(tx.inputs)) by {
      assert forall i :: 0 <= i < |tx.inputs| ==> Backed(c.hash, states[n], tx.inputs[i]);
    }
    SpendAllTotal(states[n], RefsOf(tx.inputs));
    AcceptedFees(c, states[n], tx);
  }

  /** And the fees of a whole accepted block stay below the limit, so their 64-bit sum is the true one. */
  lemma BlockFeesBound(c: Crypto, blocks: seq<seq<Tx>>, states: seq<Records>, skip: bool, n: nat, txs: seq<Tx>,
                       height: uint32)
    requires Run(c, blocks, states, skip) && n <= |blocks| && forall i :: 0 <= i < n ==> TameBlock(blocks[i])
    requires Accepted(c, states[n], txs, height, skip) && TameBlock(txs)
    ensures SumFees(txs, true) < SUPPLY_LIMIT
  {
    hide Confirmed, BlockValid, CoinbaseAccepted, Removable, SpendAll, Total, RefsValue, SumBlockOutputs, SumFees,
      BlockRefs,
      Tame, Sized, SumOutputs;
    SupplyBound(c, blocks, states, skip, n);
    SpendAllTotal(states[n], BlockRefs(txs, skip));
    RefsWithCoinbase(txs);
    RefsValueConcat(states[n], RefsOf(txs[0].inputs), BlockRefs(txs, true));
    BlockConserves(c, states[n], txs);
  }
}
