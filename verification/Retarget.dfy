/**
 utils/target.go, lines 26-96, and core/block.go, lines 345-379: the change of the target after every interval.
 Numbers of type float64 are reals, and every float64 operation is the exact one followed by a rounding `fl`, of which
 only what IEEE 754 promises for every number met here is assumed (Float64).
 */
module Retarget {
  import opened Bytes
  import opened Target

  const MAX_DIFFICULTY: uint32 := 0x18ff_ffff
  const RETARGET_INTERVAL: uint32 := 2016
  const EXPECTED_TIME_PER_BLOCK: uint64 := 120

  type Rounding = real -> real

  /** 2^53 */
  const PRECISION: real := 9007199254740992.0

  /**
   Rounding keeps order and the integers of 53 bits, and moves a number of the size met here (far from the limits of
   the format on both sides) by at most one part in 2^53.
   */
  ghost predicate Float64(fl: Rounding) {
    && (forall x, y :: x <= y ==> fl(x) <= fl(y))
    && (forall x :: -PRECISION <= x <= PRECISION && x == x.Floor as real ==> fl(x) == x)
    && (forall x :: 0.000001 <= x <= 18446744073709551616.0 ==> x - x / PRECISION <= fl(x) <= x + x / PRECISION)
  }

  function Clamp(coeff: real): (c: real)
    ensures 0.25 <= c <= 4.0
    ensures 0.25 <= coeff <= 4.0 ==> c == coeff
    ensures coeff < 0.25 ==> c == 0.25
    ensures coeff > 4.0 ==> c == 4.0
  {
    if coeff > 4.0 then 4.0 else if coeff < 0.25 then 0.25 else coeff
  }

  /** A compact form before it is put together: exponent and mantissa. */
  datatype Compact = Compact(exponent: nat, mantissa: nat)

  /** Lines 61-85: n is the shifted mantissa times the coefficient; three of its bytes are kept. */
  function Normalize(n: nat, e: byte): Compact {
    if n / TWO_32 % 256 != 0 then Compact(e + 1, n / BYTE_2)
    else if n % 256 != 0 then
      if n / BYTE_3 % 256 != 0 then Compact(e, n / 256)
      else if e != 0 then Compact(e - 1, n)
      else Compact(e, n / 256)
    else Compact(e, n / 256)
  }

  /** The shifted mantissa times the clamped coefficient. */
  function Product(coeff: real, prev: uint32): real {
    Times((Mantissa(prev) * 256) as real, Clamp(coeff))
  }

  /** The same in float64; the shifted mantissa is an integer of 32 bits. */
  function Scaled(fl: Rounding, coeff: real, prev: uint32): real {
    fl(Product(coeff, prev))
  }

  function NewCompact(fl: Rounding, coeff: real, prev: uint32): Compact {
    var x := Scaled(fl, coeff, prev);
    Normalize(if x >= 0.0 then x.Floor else 0, Exponent(prev))
  }

  /** Lines 87-95. */
  function Capped(c: Compact): (r: uint32)
    ensures r <= MAX_DIFFICULTY
  {
    var bits := (c.exponent * BYTE_3 % TWO_32 + c.mantissa) % TWO_32;
    if bits > MAX_DIFFICULTY then MAX_DIFFICULTY else bits
  }

  function Apply(fl: Rounding, coeff: real, prev: uint32): uint32 {
    Capped(NewCompact(fl, coeff, prev))
  }

  /** Four times the shifted mantissa is not rounded, and bounds the rounded product. */
  lemma ScaledRange(fl: Rounding, coeff: real, prev: uint32)
    requires Float64(fl)
    ensures 0.0 <= Scaled(fl, coeff, prev) <= (Mantissa(prev) * 1024) as real < 17179869184.0
    ensures 0 <= Scaled(fl, coeff, prev).Floor < 4 * TWO_32
  {
    var m := Mantissa(prev) * 256;
    TimesMonotone(m as real, Clamp(coeff), 4.0);
    TimesMonotone(m as real, 0.0, Clamp(coeff));
    assert fl(0 as real) == 0.0 && fl((4 * m) as real) == (4 * m) as real;
    assert 0.0 <= Product(coeff, prev) <= (4 * m) as real;
  }

  lemma TimesMonotone(a: real, b: real, c: real)
    requires a >= 0.0 && b <= c
    ensures Times(a, b) <= Times(a, c) && Times(b, a) <= Times(c, a)
  {
  }

  /** Three bytes always suffice, so that joining the exponent with `|` is adding it. */
  lemma NormalizeFits(n: nat, e: byte)
    requires n < 4 * TWO_32
    ensures Normalize(n, e).mantissa < BYTE_3 && Normalize(n, e).exponent <= e + 1
  {
  }

  /** Lines 26-96. */
  method ApplyCoeffToTarget(fl: Rounding, coeff: real, prevTarget: uint32) returns (r: uint32)
    requires Float64(fl)
    ensures r == Apply(fl, coeff, prevTarget)
  {
    hide Normalize;
    var c := coeff;
    if c > 4.0 {
      c := 4.0;
    } else if c < 0.25 {
      c := 0.25;
    }
    var rawBits: uint64 := prevTarget % BYTE_3;
    var bitsExp: uint32 := prevTarget / BYTE_3 * BYTE_3;
    bitsExp := bitsExp / BYTE_3;
    rawBits := rawBits * 256;
    ScaledRange(fl, coeff, prevTarget);
    hide Float64;
    assert Times(rawBits as real, c) == Product(coeff, prevTarget);
    var newTarget: uint64 := fl(Times(rawBits as real, c)).Floor;
    NormalizeFits(newTarget, Exponent(prevTarget));
    newTarget, bitsExp := PickBytes(newTarget, bitsExp);
    bitsExp := bitsExp * BYTE_3 % TWO_32;
    newTarget := bitsExp + newTarget;
    if newTarget % TWO_32 > MAX_DIFFICULTY {
      return MAX_DIFFICULTY;
    }
    return newTarget % TWO_32;
  }

  /** Lines 61-85. */
  method PickBytes(n: uint64, e: byte) returns (newTarget: uint64, bitsExp: uint32)
    requires n < 4 * TWO_32
    ensures Compact(bitsExp, newTarget) == Normalize(n, e)
  {
    newTarget, bitsExp := n, e;
    if newTarget / TWO_32 % 256 != 0 {
      bitsExp := bitsExp + 1;
      newTarget := newTarget / BYTE_2;
    } else if newTarget % 256 != 0 {
      if newTarget / BYTE_3 % 256 != 0 {
        newTarget := newTarget / 256;
      } else if bitsExp != 0 {
        bitsExp := bitsExp - 1;
      } else {
        newTarget := newTarget / 256;
      }
    } else {
      newTarget := newTarget / 256;
    }
  }

  // ---- the value of the result

  function ExactOf(c: Compact): real {
    Times(c.mantissa as real, Scale(c.exponent))
  }

  /** What of n survives the choice of three bytes. */
  function Kept(n: nat, e: byte): nat {
    if n >= TWO_32 then n / BYTE_2 * BYTE_2 else if n >= BYTE_3 || e == 0 then n / 256 * 256 else n
  }

  /** 256^(e - 4): what one unit of the shifted mantissa stands for. */
  function Unit(e: byte): real {
    Scale(e) / 256.0
  }

  lemma ScaleStep(e: nat)
    ensures Scale(e + 1) == 256.0 * Scale(e) && Scale(e) > 0.0
  {
  }

  /** The value that remains, and the exponent: one up on overflow, one down where the last byte is needed. */
  lemma NormalizeValue(n: nat, e: byte)
    requires n < 4 * TWO_32
    ensures ExactOf(Normalize(n, e)) == Times(Kept(n, e) as real, Unit(e))
    ensures Normalize(n, e).exponent
         == if n >= 0x1_0000_0000 then e + 1 else if n < 0x100_0000 && n % 256 != 0 && e > 0 then e - 1 else e
  {
    var c := Normalize(n, e);
    ScaleStep(e);
    if e > 0 {
      ScaleStep(e - 1);
    }
    hide Scale;
    if n >= TWO_32 {
      Regroup(c.mantissa as real, 65536.0, Scale(e + 1), Unit(e));
    } else if n >= BYTE_3 || e == 0 || n % 256 == 0 {
      Regroup(c.mantissa as real, 256.0, Scale(e), Unit(e));
      assert c.mantissa == n / 256;
    }
  }

  lemma Regroup(a: real, k: real, s: real, u: real)
    requires s == k * u
    ensures Times(a, s) == Times(a * k, u)
  {
  }

  lemma KeptBounds(n: nat, e: byte)
    ensures Kept(n, e) <= n
    ensures e > 0 ==> n - Kept(n, e) == 0 || (n >= BYTE_3 && n - Kept(n, e) < n / BYTE_2)
  {
  }

  /** The clamped coefficient times the previous target, as a real number. */
  function Ideal(coeff: real, prev: uint32): real {
    Times(Product(coeff, prev), Unit(Exponent(prev)))
  }

  lemma IdealIsProduct(coeff: real, prev: uint32)
    ensures Ideal(coeff, prev) == Times(Clamp(coeff), Exact(prev))
  {
    var m, c, s := Mantissa(prev) as real, Clamp(coeff), Scale(Exponent(prev));
    hide Scale;
    assert Product(coeff, prev) == 256.0 * (m * c);
    assert (256.0 * (m * c)) * (s / 256.0) == (m * c) * s;
    assert (m * c) * s == c * (m * s);
  }

  /** The product in float64. */
  function Rounded(fl: Rounding, coeff: real, prev: uint32): real {
    Times(Scaled(fl, coeff, prev), Unit(Exponent(prev)))
  }

  /** Rounding costs or adds at most one part in 2^53 of the product. */
  lemma RoundedIsClose(fl: Rounding, coeff: real, prev: uint32)
    requires Float64(fl)
    ensures var ideal := Ideal(coeff, prev);
            ideal - ideal / PRECISION <= Rounded(fl, coeff, prev) <= ideal + ideal / PRECISION
  {
    var x, u := Product(coeff, prev), Unit(Exponent(prev));
    ScaleStep(Exponent(prev));
    ProductRange(coeff, prev);
    hide Product, Unit;
    var d := x / PRECISION;
    assert fl(0.0) == 0.0;
    assert x - d <= fl(x) <= x + d;
    hide Float64;
    TimesMonotone(u, x - d, fl(x));
    TimesMonotone(u, fl(x), x + d);
    Distribute(x, u);
  }

  lemma ProductRange(coeff: real, prev: uint32)
    ensures Product(coeff, prev) == 0.0 || 64.0 <= Product(coeff, prev) <= 17179869184.0
  {
    var m := Mantissa(prev) * 256;
    TimesMonotone(m as real, 0.25, Clamp(coeff));
    TimesMonotone(m as real, Clamp(coeff), 4.0);
  }

  lemma Distribute(x: real, u: real)
    ensures Times(x - x / PRECISION, u) == Times(x, u) - Times(x, u) / PRECISION
    ensures Times(x + x / PRECISION, u) == Times(x, u) + Times(x, u) / PRECISION
  {
  }

  /**
   Before the cap the new target is at most the product as rounded, and falls short of it by less than one unit or one
   part in 65536, whichever is more.
   */
  lemma RetargetBound(fl: Rounding, coeff: real, prev: uint32)
    requires Float64(fl)
    ensures ExactOf(NewCompact(fl, coeff, prev)) <= Rounded(fl, coeff, prev)
    ensures var x := Scaled(fl, coeff, prev);
            Exponent(prev) > 0 ==>
              Rounded(fl, coeff, prev) - ExactOf(NewCompact(fl, coeff, prev))
              < Times(if x / 65536.0 > 1.0 then x / 65536.0 else 1.0, Unit(Exponent(prev)))
  {
    var x, e := Scaled(fl, coeff, prev), Exponent(prev);
    ScaledRange(fl, coeff, prev);
    hide Float64, Scaled;
    var n := x.Floor;
    NormalizeValue(n, e);
    KeptBounds(n, e);
    ScaleStep(e);
    hide Scale, Kept;
    var k := Kept(n, e);
    TimesMonotone(Unit(e), k as real, x);
    var slack := if x / 65536.0 > 1.0 then x / 65536.0 else 1.0;
    if e > 0 {
      assert x - k as real < slack by {
        assert n as real <= x < n as real + 1.0;
        if n >= BYTE_3 {
          Shortfall(n, k, x);
        }
      }
      Spread(x, k as real, slack, Unit(e));
    }
  }

  lemma Shortfall(n: nat, k: nat, x: real)
    requires n >= BYTE_3 && k <= n && n - k < n / BYTE_2 && n as real <= x < n as real + 1.0
    ensures x - k as real < x / 65536.0
  {
  }

  lemma Spread(x: real, k: real, slack: real, u: real)
    requires x - k < slack && u > 0.0
    ensures Times(x, u) - Times(k, u) < Times(slack, u)
  {
  }

  // ---- the cap

  lemma {:induction false} ScaleMonotone(a: nat, b: nat)
    requires a <= b
    ensures 0.0 < Scale(a) <= Scale(b)
    decreases b - a
  {
    ScaleStep(a);
    if a < b {
      ScaleMonotone(a + 1, b);
    }
  }

  function Least(a: real, b: real): real {
    if a <= b then a else b
  }

  lemma JoinSplits(c: Compact)
    requires c.exponent < 256 && c.mantissa < BYTE_3
    ensures var bits := (c.exponent * BYTE_3 % TWO_32 + c.mantissa) % TWO_32;
            bits == c.exponent * BYTE_3 + c.mantissa && Exponent(bits) == c.exponent && Mantissa(bits) == c.mantissa
  {
  }

  /** An exponent past the cap comes with a mantissa that shows it. */
  lemma CarryIsLarge(n: nat, e: byte)
    requires n < 4 * TWO_32
    ensures var c := Normalize(n, e); c.exponent > e ==> c.mantissa >= BYTE_2
  {
  }

  lemma CompactCap(c: Compact)
    requires c.mantissa < BYTE_3 && c.exponent <= 0x19 && (c.exponent == 0x19 ==> c.mantissa >= BYTE_2)
    ensures ExactOf(c) <= Exact(MAX_DIFFICULTY) <==> c.exponent * BYTE_3 + c.mantissa <= MAX_DIFFICULTY
  {
    var s, m := Scale(0x18), c.mantissa as real;
    assert Exponent(MAX_DIFFICULTY) == 0x18 && Mantissa(MAX_DIFFICULTY) == 0xff_ffff;
    assert Exact(MAX_DIFFICULTY) == Times(16777215.0, s);
    ScaleStep(0x18);
    if c.exponent <= 0x18 {
      ScaleMonotone(c.exponent, 0x18);
      TimesMonotone(m, Scale(c.exponent), s);
      TimesMonotone(s, m, 16777215.0);
    } else {
      hide Scale;
      assert ExactOf(c) == Times(m * 256.0, s) by { Regroup(m, 256.0, Scale(0x19), s); }
      TimesMonotone(s, 16777216.0, m * 256.0);
      assert Times(16777216.0, s) > Times(16777215.0, s);
    }
  }

  lemma CappedBits(c: Compact)
    requires c.exponent < 256 && c.mantissa < BYTE_3
    ensures var joined := c.exponent * BYTE_3 + c.mantissa;
            Capped(c) == (if joined > MAX_DIFFICULTY then MAX_DIFFICULTY else joined) && Exact(joined) == ExactOf(c)
  {
    JoinSplits(c);
  }

  lemma CappedValue(c: Compact)
    requires c.mantissa < BYTE_3 && c.exponent <= 0x19 && (c.exponent == 0x19 ==> c.mantissa >= BYTE_2)
    ensures Exact(Capped(c)) == Least(ExactOf(c), Exact(MAX_DIFFICULTY))
  {
    hide Exact, ExactOf, Capped;
    CappedBits(c);
    CompactCap(c);
  }

  /**
   From any target within the limit, capping the compact form is taking the smaller of the two values; the result
   never exceeds the limit, wherever it starts.
   */
  lemma RetargetCap(fl: Rounding, coeff: real, prev: uint32)
    requires Float64(fl)
    ensures Apply(fl, coeff, prev) <= MAX_DIFFICULTY
    ensures prev <= MAX_DIFFICULTY ==>
              Exact(Apply(fl, coeff, prev)) == Least(ExactOf(NewCompact(fl, coeff, prev)), Exact(MAX_DIFFICULTY))
  {
    if prev <= MAX_DIFFICULTY {
      var n, e := Scaled(fl, coeff, prev).Floor, Exponent(prev);
      ScaledRange(fl, coeff, prev);
      hide Float64, Scaled, Exact, ExactOf, Capped, Normalize;
      NormalizeFits(n, e);
      CarryIsLarge(n, e);
      CappedValue(Normalize(n, e));
    }
  }

  /** The coefficient 1 changes nothing but the limit. */
  lemma RetargetIdentity(fl: Rounding, prev: uint32)
    requires Float64(fl)
    ensures Apply(fl, 1.0, prev) == if prev > MAX_DIFFICULTY then MAX_DIFFICULTY else prev
  {
    var m := Mantissa(prev);
    assert Times((m * 256) as real, 1.0) == (m * 256) as real;
    assert Scaled(fl, 1.0, prev).Floor == m * 256;
    assert NewCompact(fl, 1.0, prev) == Compact(Exponent(prev), m);
    JoinSplits(Compact(Exponent(prev), m));
  }

  lemma KeptMonotone(a: nat, b: nat, e: byte)
    requires a <= b
    ensures Kept(a, e) <= Kept(b, e)
  {
  }

  /** A slower interval never makes the next target harder. */
  lemma RetargetMonotone(fl: Rounding, c1: real, c2: real, prev: uint32)
    requires Float64(fl) && c1 <= c2 && prev <= MAX_DIFFICULTY
    ensures Exact(Apply(fl, c1, prev)) <= Exact(Apply(fl, c2, prev))
  {
    var e := Exponent(prev);
    ScaledRange(fl, c1, prev);
    ScaledRange(fl, c2, prev);
    TimesMonotone((Mantissa(prev) * 256) as real, Clamp(c1), Clamp(c2));
    var n1, n2 := Scaled(fl, c1, prev).Floor, Scaled(fl, c2, prev).Floor;
    assert n1 <= n2;
    hide Float64;
    NormalizeValue(n1, e);
    NormalizeValue(n2, e);
    KeptMonotone(n1, n2, e);
    ScaleStep(e);
    RetargetCap(fl, c1, prev);
    RetargetCap(fl, c2, prev);
    hide Normalize, Scale, Kept, Apply;
    TimesMonotone(Unit(e), Kept(n1, e) as real, Kept(n2, e) as real);
  }

  // ---- runs

  function RunTargets(fl: Rounding, start: uint32, coeffs: seq<real>): uint32 {
    var n := |coeffs|;
    if n == 0 then start else Apply(fl, coeffs[n - 1], RunTargets(fl, start, coeffs[..n - 1]))
  }

  function Quadruple(n: nat, x: real): real {
    if n == 0 then x else 4.0 * Quadruple(n - 1, x)
  }

  /** Over every run from a target within the limit: within the limit, and at most four times easier at every step. */
  lemma {:induction false} RunBounds(fl: Rounding, start: uint32, coeffs: seq<real>)
    requires Float64(fl) && start <= MAX_DIFFICULTY
    ensures RunTargets(fl, start, coeffs) <= MAX_DIFFICULTY
    ensures Exact(RunTargets(fl, start, coeffs)) <= Quadruple(|coeffs|, Exact(start))
  {
    hide Exact, Apply, Float64;
    if |coeffs| > 0 {
      var front, coeff := coeffs[..|coeffs| - 1], coeffs[|coeffs| - 1];
      var prev := RunTargets(fl, start, front);
      RunBounds(fl, start, front);
      RetargetCap(fl, coeff, prev);
      RetargetBound(fl, coeff, prev);
      AtMostFourTimes(fl, coeff, prev);
    }
  }

  /** Not even rounding carries the product past four times the previous target. */
  lemma AtMostFourTimes(fl: Rounding, coeff: real, prev: uint32)
    requires Float64(fl)
    ensures Rounded(fl, coeff, prev) <= 4.0 * Exact(prev)
  {
    ScaledRange(fl, coeff, prev);
    hide Scaled, Float64, Scale;
    FourTimes(Scaled(fl, coeff, prev), prev);
  }

  lemma FourTimes(x: real, prev: uint32)
    requires x <= (Mantissa(prev) * 1024) as real
    ensures Times(x, Unit(Exponent(prev))) <= 4.0 * Exact(prev)
  {
    var m, u, s := Mantissa(prev) as real, Unit(Exponent(prev)), Scale(Exponent(prev));
    ScaleStep(Exponent(prev));
    hide Scale;
    TimesMonotone(u, x, 1024.0 * m);
    Regroup(4.0 * m, 256.0, s, u);
    assert Times(4.0 * m, s) == 4.0 * Times(m, s);
  }

  // ---- core/block.go

  type int64 = x: int | -0x8000_0000_0000_0000 <= x < 0x8000_0000_0000_0000

  function Wrap64(x: int): int64 {
    (x + 0x8000_0000_0000_0000) % TWO_64 - 0x8000_0000_0000_0000
  }

  datatype BlockHeader = BlockHeader(previousBlockHash: bytes, merkleRoot: bytes, timestamp: int64, nonce: uint32,
                                     targetBits: uint32)

  /** Lines 373-379. */
  function CalculateTarget(fl: Rounding, last: BlockHeader, firstStamp: int64): uint32 {
    Apply(fl, Coefficient(fl, Wrap64(last.timestamp - firstStamp)), last.targetBits)
  }

  function ExpectedTime(): real {
    (EXPECTED_TIME_PER_BLOCK * RETARGET_INTERVAL) as real
  }

  /** The measured time and the quotient are rounded to float64; the expected time needs no rounding (Expected). */
  function Coefficient(fl: Rounding, actualTime: int64): real {
    fl(fl(actualTime as real) / ExpectedTime())
  }

  lemma Expected(fl: Rounding)
    requires Float64(fl)
    ensures fl(ExpectedTime()) == ExpectedTime() == 241920.0
  {
    assert fl(241920 as real) == 241920.0;
  }

  /** The quotient of measured and expected time, and what the two roundings make of it. */
  lemma CoefficientClose(fl: Rounding, t: int64)
    requires Float64(fl)
    ensures var q, c := t as real / 241920.0, Coefficient(fl, t);
            if t <= 0 then c <= 0.0 else q - 3.0 * q / PRECISION <= c <= q + 3.0 * q / PRECISION
  {
    Expected(fl);
    assert fl(0.0) == 0.0 && fl(1.0) == 1.0;
    var a := fl(t as real);
    if t > 0 {
      assert 1.0 <= a && t as real - t as real / PRECISION <= a <= t as real + t as real / PRECISION;
      var b := a / 241920.0;
      assert 0.000001 <= b <= 18446744073709551616.0;
    } else {
      assert a <= 0.0 && a / 241920.0 <= 0.0;
    }
  }

  lemma ClampClose(q: real, c: real)
    requires if q <= 0.0 then c <= 0.0 else q - 3.0 * q / PRECISION <= c <= q + 3.0 * q / PRECISION
    ensures Clamp(q) - 3.0 * Clamp(q) / PRECISION <= Clamp(c) <= Clamp(q) + 3.0 * Clamp(q) / PRECISION
  {
  }

  lemma CoefficientMonotone(fl: Rounding, t1: int64, t2: int64)
    requires Float64(fl) && t1 <= t2
    ensures Coefficient(fl, t1) <= Coefficient(fl, t2)
  {
    Expected(fl);
    assert fl(t1 as real) <= fl(t2 as real);
    assert fl(t1 as real) / 241920.0 <= fl(t2 as real) / 241920.0;
  }

  /** Blockchain.GetHeaderAt. */
  function GetHeaderAt(chain: seq<BlockHeader>, index: uint32): Option<BlockHeader> {
    if index < |chain| % TWO_32 then Some(chain[index]) else None
  }

  predicate RetargetAfter(h: uint32) {
    (h + 1) % TWO_32 % RETARGET_INTERVAL == 0
  }

  /** The block from which the interval that ends at h is timed. */
  function IntervalStart(h: uint32): uint32 {
    if RETARGET_INTERVAL > h then 0 else h - RETARGET_INTERVAL
  }

  /** Lines 345-371; None is the panic of line 367. */
  method GetTargetForBlock(fl: Rounding, chain: seq<BlockHeader>, last: BlockHeader, lastBlockHeight: uint32)
    returns (r: Option<uint32>)
    ensures r == None <==> RetargetAfter(lastBlockHeight) && IntervalStart(lastBlockHeight) >= |chain| % TWO_32
    ensures r != None && !RetargetAfter(lastBlockHeight) ==> r.value == last.targetBits
    ensures r != None && RetargetAfter(lastBlockHeight) ==>
              var first := chain[IntervalStart(lastBlockHeight)];
              var compensation := if lastBlockHeight < RETARGET_INTERVAL then EXPECTED_TIME_PER_BLOCK else 0;
              r.value == CalculateTarget(fl, last, Wrap64(first.timestamp + compensation))
  {
    hide CalculateTarget;
    if (lastBlockHeight + 1) % TWO_32 % RETARGET_INTERVAL != 0 {
      return Some(last.targetBits);
    }
    var intervalStartHeight := (lastBlockHeight - RETARGET_INTERVAL) % TWO_32;
    var timecomp := 0;
    if RETARGET_INTERVAL > lastBlockHeight {
      intervalStartHeight := 0;
      timecomp := timecomp + EXPECTED_TIME_PER_BLOCK;
    }
    var firstBlockHeader := GetHeaderAt(chain, intervalStartHeight);
    if firstBlockHeader == None {
      return None;
    }
    return Some(CalculateTarget(fl, last, Wrap64(firstBlockHeader.value.timestamp + timecomp)));
  }

  /**
   At every retarget height of a chain that has its last block, the interval starts inside the chain: at the genesis
   block the first time, and later exactly at the block that closed the interval before.
   */
  lemma IntervalStartInChain(chain: seq<BlockHeader>, h: uint32)
    requires RetargetAfter(h) && h < |chain| < TWO_32
    ensures GetHeaderAt(chain, IntervalStart(h)) == Some(chain[IntervalStart(h)])
    ensures h < RETARGET_INTERVAL ==> IntervalStart(h) == 0 && h == RETARGET_INTERVAL - 1
    ensures h >= RETARGET_INTERVAL ==> RetargetAfter(IntervalStart(h)) && IntervalStart(h) + RETARGET_INTERVAL == h
  {
  }

  lemma Wrap64Exact(x: int)
    ensures -0x8000_0000_0000_0000 <= x < 0x8000_0000_0000_0000 ==> Wrap64(x) == x
    ensures Wrap64(x + TWO_64) == Wrap64(x)
  {
  }

  lemma DistributeThree(x: real, u: real)
    ensures Times(x - 3.0 * x / PRECISION, u) == Times(x, u) - 3.0 * Times(x, u) / PRECISION
    ensures Times(x + 3.0 * x / PRECISION, u) == Times(x, u) + 3.0 * Times(x, u) / PRECISION
  {
    assert (x / PRECISION) * u == (x * u) / PRECISION;
  }

  /** The rounded product is within five parts in 2^53 of the clamped quotient times the previous target. */
  lemma RoundedFollowsQuotient(fl: Rounding, t: int64, prev: uint32)
    requires Float64(fl)
    ensures var w := Times(Clamp(t as real / 241920.0), Exact(prev));
            w >= 0.0 && w - 5.0 * w / PRECISION <= Rounded(fl, Coefficient(fl, t), prev) <= w + 5.0 * w / PRECISION
  {
    var q, c := t as real / 241920.0, Coefficient(fl, t);
    CoefficientClose(fl, t);
    RoundedIsClose(fl, c, prev);
    IdealIsProduct(c, prev);
    hide Float64, Coefficient, Rounded, Ideal;
    ClampClose(q, c);
    ScaleStep(Exponent(prev));
    TimesMonotone(Mantissa(prev) as real, 0.0, Scale(Exponent(prev)));
    var x := Exact(prev);
    hide Exact;
    TimesMonotone(x, Clamp(q) - 3.0 * Clamp(q) / PRECISION, Clamp(c));
    TimesMonotone(x, Clamp(c), Clamp(q) + 3.0 * Clamp(q) / PRECISION);
    TimesMonotone(x, 0.0, Clamp(q));
    DistributeThree(Clamp(q), x);
    hide Times, Clamp;
  }

  /**
   The new target is the previous one times the quotient of measured and expected time, the quotient kept within a
   quarter and four and the result within the limit: over it by at most five parts in 2^53, and under it by at most one
   part in 65535 and one unit of the byte behind the mantissa.
   */
  lemma TargetFollowsTime(fl: Rounding, last: BlockHeader, first: int64)
    requires Float64(fl) && last.targetBits <= 0x18ff_ffff
    requires -0x8000_0000_0000_0000 <= last.timestamp - first < 0x8000_0000_0000_0000
    ensures var q := (last.timestamp - first) as real / 241920.0;
            var clamped := if q > 4.0 then 4.0 else if q < 0.25 then 0.25 else q;
            var w := Times(clamped, Exact(last.targetBits));
            var goal, value := Least(w, Exact(0x18ff_ffff)), Exact(CalculateTarget(fl, last, first));
            && value <= goal + 5.0 * w / PRECISION
            && (Exponent(last.targetBits) > 0 ==>
                  value > goal - (w / 65535.0 + Scale(Exponent(last.targetBits)) / 256.0))
  {
    var t, prev := last.timestamp - first, last.targetBits;
    Wrap64Exact(t);
    var c := Coefficient(fl, t);
    RoundedFollowsQuotient(fl, t, prev);
    RetargetCap(fl, c, prev);
    RetargetBound(fl, c, prev);
    ScaleStep(Exponent(prev));
    SlackBound(Scaled(fl, c, prev), Unit(Exponent(prev)));
    hide Float64, Coefficient, NewCompact, ExactOf, Apply, Exact, Scaled, Scale, Times;
  }

  lemma SlackBound(x: real, u: real)
    requires u > 0.0
    ensures Times(if x / 65536.0 > 1.0 then x / 65536.0 else 1.0, u)
         == if x / 65536.0 > 1.0 then Times(x, u) / 65536.0 else u
  {
  }

  /** A longer measured interval never makes the target harder. */
  lemma TimeMonotone(fl: Rounding, last: BlockHeader, first1: int64, first2: int64)
    requires Float64(fl) && last.targetBits <= MAX_DIFFICULTY
    requires Wrap64(last.timestamp - first1) <= Wrap64(last.timestamp - first2)
    ensures Exact(CalculateTarget(fl, last, first1)) <= Exact(CalculateTarget(fl, last, first2))
  {
    hide Coefficient, Exact, Apply, Wrap64, Float64;
    var t1, t2 := Wrap64(last.timestamp - first1), Wrap64(last.timestamp - first2);
    CoefficientMonotone(fl, t1, t2);
    RetargetMonotone(fl, Coefficient(fl, t1), Coefficient(fl, t2), last.targetBits);
  }

  /** An interval of exactly the expected length changes nothing but the limit. */
  lemma TimeOnTarget(fl: Rounding, last: BlockHeader, first: int64)
    requires Float64(fl) && Wrap64(last.timestamp - first) == 241920
    ensures CalculateTarget(fl, last, first)
         == if last.targetBits > MAX_DIFFICULTY then MAX_DIFFICULTY else last.targetBits
  {
    hide Wrap64, Apply;
    Expected(fl);
    assert fl(241920 as real) == 241920.0 && fl(1 as real) == 1.0;
    assert Coefficient(fl, 241920) == 1.0;
    RetargetIdentity(fl, last.targetBits);
  }
}
