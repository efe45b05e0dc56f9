/** utils/target.go: targets in compact form and the numbers they stand for. */
module Target {
  import opened Bytes

  const BYTE_2 := 0x1_0000
  const BYTE_3 := 0x100_0000

  /** The number of bytes of the target, and its three leading bytes. */
  function Exponent(bits: uint32): (e: byte) {
    bits / BYTE_3
  }

  function Mantissa(bits: uint32): (m: nat)
    ensures m < BYTE_3
  {
    bits % BYTE_3
  }

  // ---- expansion

  function Zeros(n: nat): (r: bytes)
    ensures |r| == n && forall i :: 0 <= i < n ==> r[i] == 0
  {
    seq(n, _ => 0)
  }

  /** The bytes after the first, as far as they fit from 32 - bits[0] on, among zeros. */
  function Expanded(bits: bytes): (r: bytes)
    requires |bits| > 0 && bits[0] <= 32
    ensures |r| == 32
  {
    var exp := bits[0];
    var body := if exp <= |bits| - 1 then bits[1..1 + exp] else bits[1..];
    Zeros(32 - exp) + (body + Zeros(exp - |body|))
  }

  /** Lines 8-24; null is the panic of an exponent that exceeds the 32 bytes, or of no bytes at all. */
  method ExpandBits(bits: bytes) returns (res: array?<byte>)
    ensures res == null <==> |bits| == 0 || bits[0] > 32
    ensures res != null ==> fresh(res) && res[..] == Expanded(bits)
    ensures res != null ==> forall j :: 0 <= j < 32 ==>
              var exp: int := bits[0];
              res[j] == if 32 - exp <= j < 32 - exp + (|bits| - 1) then bits[1 + (j - (32 - exp))] else 0
  {
    if |bits| == 0 || bits[0] > 32 {
      return null;
    }
    res := new byte[32](_ => 0);
    var exp := bits[0];
    var n := if exp <= |bits| - 1 then exp else |bits| - 1;
    forall i | 0 <= i < n {
      res[32 - exp + i] := bits[1 + i];
    }
  }

  lemma {:induction false} ValueConcat(a: bytes, b: bytes)
    ensures Value(a + b) == Value(a) * Pow256(|b|) + Value(b)
  {
    if |b| == 0 {
      assert a + b == a;
    } else {
      var front := b[..|b| - 1];
      assert (a + b)[..|a + b| - 1] == a + front;
      ValueConcat(a, front);
      Shift(Value(a), Pow256(|front|));
    }
  }

  lemma Shift(v: nat, p: nat)
    ensures (v * p) * 256 == v * (256 * p)
  {
  }

  lemma {:induction false} ValueZeros(n: nat)
    ensures Value(Zeros(n)) == 0
  {
    if n > 0 {
      ValueZeros(n - 1);
      assert Zeros(n)[..n - 1] == Zeros(n - 1);
    }
  }

  /** What the compact form stands for, exactly: the mantissa times 256^(exponent - 3). */
  function Scale(e: nat): real {
    Pow256(e) as real / 16777216.0
  }

  function Exact(bits: uint32): real {
    Times(Mantissa(bits) as real, Scale(Exponent(bits)))
  }

  function Times(a: real, b: real): real {
    a * b
  }

  lemma {:induction false} PowAdd(a: nat, b: nat)
    ensures Pow256(a) * Pow256(b) == Pow256(a + b)
  {
    if a > 0 {
      PowAdd(a - 1, b);
      Shift(Pow256(b), Pow256(a - 1));
    }
  }

  /** The first bytes of a string are its value without the last ones. */
  lemma ValuePrefix(s: bytes, k: nat)
    requires k <= |s|
    ensures Value(s[..k]) == Value(s) / Pow256(|s| - k)
  {
    ValueConcat(s[..k], s[k..]);
    assert s[..k] + s[k..] == s;
    ValueBound(s[k..]);
    Quotient(Value(s), Value(s[..k]), Pow256(|s| - k), Value(s[k..]));
  }

  lemma Quotient(v: nat, q: nat, d: nat, r: nat)
    requires v == q * d + r && r < d
    ensures v / d == q
  {
    var q' := v / d;
    assert v == q' * d + v % d;
    if q' < q { Step(q' + 1, q, d); } else if q < q' { Step(q + 1, q', d); }
  }

  lemma Step(a: nat, b: nat, d: nat)
    requires a <= b
    ensures a * d <= b * d
  {
  }

  lemma Bytes4(bits: uint32)
    ensures BE32(bits)[0] == Exponent(bits) && Value(BE32(bits)[1..]) == Mantissa(bits)
  {
    var s := BE32(bits);
    ValueConcat(s[..1], s[1..]);
    assert s[..1] + s[1..] == s && s[..1] == [s[0]];
    assert Value([s[0]]) == s[0] by { assert [s[0]][..0] == []; }
    ValueBound(s[1..]);
    assert Pow256(3) == BYTE_3;
    hide Value, BE32;
    assert bits == s[0] * BYTE_3 + Value(s[1..]);
  }

  /** The 32 bytes hold the value of the compact form, without what lies behind the last byte. */
  lemma ExpandedValue(bits: uint32)
    requires Exponent(bits) <= 32
    ensures BE32(bits)[0] == Exponent(bits)
    ensures Value(Expanded(BE32(bits))) == Mantissa(bits) * Pow256(Exponent(bits)) / BYTE_3 == Exact(bits).Floor
  {
    hide Value, BE32;
    var s, e, m := BE32(bits), Exponent(bits), Mantissa(bits);
    Bytes4(bits);
    var body := if e <= 3 then s[1..1 + e] else s[1..];
    var tail := Zeros(e - |body|);
    ValueConcat(Zeros(32 - e), body + tail);
    ValueConcat(body, tail);
    ValueZeros(32 - e);
    ValueZeros(e - |body|);
    ZeroTimes(Pow256(|body + tail|));
    assert Value(Expanded(s)) == Value(body) * Pow256(e - |body|);
    assert Pow256(3) == BYTE_3;
    if e >= 3 {
      PowAdd(e - 3, 3);
      assert body == s[1..];
      Cancel(m, Pow256(e - 3), BYTE_3);
    } else {
      assert s[1..][..e] == body;
      ValuePrefix(s[1..], e);
      SmallExponent(m, e);
      assert Value(body) * 1 == Value(body);
    }
    RealQuotient(m, Pow256(e), BYTE_3);
  }

  lemma ZeroTimes(p: nat)
    ensures 0 * p == 0
  {
  }

  lemma Cancel(m: nat, p: nat, d: nat)
    requires d > 0
    ensures m * (p * d) / d == m * p
  {
    assert m * (p * d) == (m * p) * d;
    Quotient((m * p) * d, m * p, d, 0);
  }

  lemma SmallExponent(m: nat, e: nat)
    requires e < 3
    ensures m / Pow256(3 - e) == m * Pow256(e) / BYTE_3
  {
    assert Pow256(1) == 256 && Pow256(2) == BYTE_2 && Pow256(3) == BYTE_3 && Pow256(0) == 1;
    assert e == 0 || e == 1 || e == 2;
  }

  lemma RealQuotient(m: nat, p: nat, d: nat)
    requires d > 0
    ensures Times(m as real, p as real / d as real).Floor == m * p / d
  {
    var n := m * p;
    var q, r := n / d, n % d;
    assert m as real * p as real == n as real;
    assert n as real == q as real * d as real + r as real;
    var f := r as real / d as real;
    assert f * d as real == r as real;
    assert 0.0 <= f < 1.0;
    assert m as real * (p as real / d as real) == q as real + f;
  }

  // ---- meeting a target

  /** bytes.Compare(a, b) < 0, for strings of one length. */
  predicate Below(a: bytes, b: bytes)
    requires |a| == |b|
  {
    |a| > 0 && (a[0] < b[0] || (a[0] == b[0] && Below(a[1..], b[1..])))
  }

  /** Comparing strings of one length byte by byte is comparing their values. */
  lemma {:induction false} BelowIsLess(a: bytes, b: bytes)
    requires |a| == |b|
    ensures Below(a, b) <==> Value(a) < Value(b)
  {
    if |a| > 0 {
      BelowIsLess(a[1..], b[1..]);
      FirstByte(a);
      FirstByte(b);
      hide Value;
      Leading(a[0], b[0], Pow256(|a| - 1), Value(a[1..]), Value(b[1..]));
    }
  }

  lemma Leading(x: nat, y: nat, p: nat, u: nat, v: nat)
    requires u < p && v < p
    ensures x * p + u < y * p + v <==> x < y || (x == y && u < v)
  {
    if x < y {
      Step(x + 1, y, p);
    } else if y < x {
      Step(y + 1, x, p);
    }
  }

  lemma FirstByte(a: bytes)
    requires |a| > 0
    ensures Value(a) == a[0] * Pow256(|a| - 1) + Value(a[1..]) && Value(a[1..]) < Pow256(|a| - 1)
  {
    assert [a[0]] + a[1..] == a;
    ValueConcat([a[0]], a[1..]);
    assert Value([a[0]]) == a[0] by { assert [a[0]][..0] == []; }
    ValueBound(a[1..]);
  }

  /** A block hash that meets a target (core/block.go, lines 206 and 323) meets every target of no smaller value. */
  lemma EasierTargetAccepts(blockHash: Digest, t1: uint32, t2: uint32)
    requires Exponent(t1) <= 32 && Exponent(t2) <= 32 && Exact(t1) <= Exact(t2)
    ensures BE32(t1)[0] <= 32 && BE32(t2)[0] <= 32
    ensures Below(blockHash, Expanded(BE32(t1))) ==> Below(blockHash, Expanded(BE32(t2)))
  {
    ExpandedValue(t1);
    ExpandedValue(t2);
    hide Exact, Expanded, Value;
    BelowIsLess(blockHash, Expanded(BE32(t1)));
    BelowIsLess(blockHash, Expanded(BE32(t2)));
  }
}
