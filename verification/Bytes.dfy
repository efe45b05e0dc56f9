/** Byte strings, the fixed-width integers of the node, and big-endian codecs. */
module Bytes {

  type byte = x: int | 0 <= x < 0x100
  type bytes = seq<byte>

  type uint32 = x: int | 0 <= x < 0x1_0000_0000
  type uint64 = x: int | 0 <= x < 0x1_0000_0000_0000_0000

  const TWO_32 := 0x1_0000_0000
  const TWO_64 := 0x1_0000_0000_0000_0000

  datatype Option<+T> = None | Some(value: T)

  /** A SHA-256 digest. */
  type Digest = d: bytes | |d| == 32 witness seq(32, _ => 0)

  /** The hash is a parameter of everything that hashes: any function to 32 bytes will do. */
  type Hash = bytes -> Digest

  function DoubleHash(h: Hash, m: bytes): Digest {
    h(h(m))
  }

  /** Two distinct messages with one double hash. */
  predicate Collision(h: Hash, m1: bytes, m2: bytes) {
    m1 != m2 && DoubleHash(h, m1) == DoubleHash(h, m2)
  }

  function Pow256(n: nat): (r: nat)
    ensures r > 0
  {
    if n == 0 then 1 else 256 * Pow256(n - 1)
  }

  /** The low `width` bytes of n, most significant first. */
  function BigEndian(n: nat, width: nat): (r: bytes)
    ensures |r| == width
  {
    if width == 0 then [] else BigEndian(n / 256, width - 1) + [n % 256]
  }

  function Value(s: bytes): nat {
    if |s| == 0 then 0 else Value(s[..|s| - 1]) * 256 + s[|s| - 1]
  }

  lemma {:induction false} ValueOfBigEndian(n: nat, width: nat)
    requires n < Pow256(width)
    ensures Value(BigEndian(n, width)) == n
  {
    if width != 0 {
      ValueOfBigEndian(n / 256, width - 1);
      assert BigEndian(n, width)[..width - 1] == BigEndian(n / 256, width - 1);
    }
  }

  lemma {:induction false} ValueBound(s: bytes)
    ensures Value(s) < Pow256(|s|)
  {
    if |s| != 0 {
      ValueBound(s[..|s| - 1]);
    }
  }

  function BE32(n: uint32): (r: bytes)
    ensures |r| == 4 && Value(r) == n
  {
    ValueOfBigEndian(n, 4);
    BigEndian(n, 4)
  }

  function BE64(n: uint64): (r: bytes)
    ensures |r| == 8 && Value(r) == n
  {
    assert Pow256(8) == TWO_64 by { assert Pow256(4) == TWO_32; }
    ValueOfBigEndian(n, 8);
    BigEndian(n, 8)
  }

  function DeserializeUint32(s: bytes): (r: uint32)
    requires |s| == 4
    ensures r == Value(s)
  {
    ValueBound(s);
    Value(s)
  }

  function DeserializeUint64(s: bytes): (r: uint64)
    requires |s| == 8
    ensures r == Value(s)
  {
    assert Pow256(8) == TWO_64 by { assert Pow256(4) == TWO_32; }
    ValueBound(s);
    Value(s)
  }

  predicate Distinct<T(==)>(s: seq<T>) {
    forall i, j :: 0 <= i < j < |s| ==> s[i] != s[j]
  }

  // ---- arithmetic modulo 2^64

  lemma AddModulo(a: int, b: int)
    ensures (a % TWO_64 + b) % TWO_64 == (a + b) % TWO_64
  {
    ModuloUnique(a + b, (a % TWO_64 + b) / TWO_64 + a / TWO_64, (a % TWO_64 + b) % TWO_64);
  }

  lemma SubModulo(a: int, b: int)
    ensures (a % TWO_64 - b % TWO_64) % TWO_64 == (a - b) % TWO_64
  {
    var d := a % TWO_64 - b % TWO_64;
    ModuloUnique(a - b, d / TWO_64 + a / TWO_64 - b / TWO_64, d % TWO_64);
  }

  lemma ModuloUnique(x: int, q: int, r: int)
    requires 0 <= r < TWO_64 && x == q * TWO_64 + r
    ensures x % TWO_64 == r
  {
  }

  lemma ModuloSmall(x: nat)
    ensures x % TWO_64 <= x && (x < TWO_64 ==> x % TWO_64 == x)
  {
  }
}
