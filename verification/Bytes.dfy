/** Bytes, and little- and big-endian numbers written as byte sequences.
    A C `uint8_t` is a `byte`; wider unsigned integers are naturals below a power of 256. */
module Bytes {
  type byte = bv8

  const TWO_32: nat := 0x1_0000_0000
  const TWO_64: nat := 0x1_0000_0000_0000_0000

  function Val(b: byte): (v: int)
    ensures 0 <= v < 256
  {
    b as int
  }

  lemma ValOf(v: int)
    requires 0 <= v < 256
    ensures Val(v as byte) == v
  {}

  function Byte(v: int): (b: byte)
    requires 0 <= v < 256
    ensures Val(b) == v
  {
    ValOf(v);
    v as byte
  }

  lemma ValInjective(a: byte, b: byte)
    requires Val(a) == Val(b)
    ensures a == b
  {}

  function Pow256(n: nat): (p: nat)
    ensures p >= 1
  {
    if n == 0 then 1 else 256 * Pow256(n - 1)
  }

  lemma Pow256Values()
    ensures Pow256(1) == 0x100 && Pow256(2) == 0x1_0000
    ensures Pow256(4) == TWO_32 && Pow256(8) == TWO_64
  {
    assert Pow256(3) == 0x100_0000;
    assert Pow256(5) == 0x100_0000_0000;
    assert Pow256(6) == 0x1_0000_0000_0000;
    assert Pow256(7) == 0x100_0000_0000_0000;
  }

  lemma Scale(b: int, u: int, p: int, v: int)
    ensures b + 256 * (u + p * v) == (b + 256 * u) + (256 * p) * v
  {}

  /** The low `k` bytes of `v`, least significant first. */
  function LittleEndian(v: nat, k: nat): (s: seq<byte>)
    ensures |s| == k
    decreases k
  {
    if k == 0 then [] else [Byte(v % 256)] + LittleEndian(v / 256, k - 1)
  }

  function FromLittleEndian(s: seq<byte>): (v: nat)
    decreases |s|
  {
    if s == [] then 0 else Val(s[0]) + 256 * FromLittleEndian(s[1..])
  }

  lemma {:induction false} FromLittleEndianBound(s: seq<byte>)
    ensures FromLittleEndian(s) < Pow256(|s|)
    decreases |s|
  {
    if s != [] {
      FromLittleEndianBound(s[1..]);
    }
  }

  lemma {:induction false} LittleEndianRoundTrip(v: nat, k: nat)
    requires v < Pow256(k)
    ensures FromLittleEndian(LittleEndian(v, k)) == v
    decreases k
  {
    if k != 0 {
      LittleEndianRoundTrip(v / 256, k - 1);
      assert LittleEndian(v, k)[1..] == LittleEndian(v / 256, k - 1);
    }
  }

  lemma DigitUnique(x: nat, a: nat, y: nat, b: nat)
    requires x < 256 && y < 256 && x + 256 * a == y + 256 * b
    ensures x == y && a == b
  {}

  /** A byte string is determined by its length and its little-endian value. */
  lemma {:induction false} FromLittleEndianInjective(s: seq<byte>, t: seq<byte>)
    requires |s| == |t| && FromLittleEndian(s) == FromLittleEndian(t)
    ensures s == t
    decreases |s|
  {
    if s != [] {
      DigitUnique(Val(s[0]), FromLittleEndian(s[1..]), Val(t[0]), FromLittleEndian(t[1..]));
      ValInjective(s[0], t[0]);
      FromLittleEndianInjective(s[1..], t[1..]);
      assert s == [s[0]] + s[1..] && t == [t[0]] + t[1..];
    }
  }

  lemma {:induction false} FromLittleEndianConcat(s: seq<byte>, t: seq<byte>)
    ensures FromLittleEndian(s + t) == FromLittleEndian(s) + Pow256(|s|) * FromLittleEndian(t)
    decreases |s|
  {
    hide Val, Byte;
    var v := FromLittleEndian(t);
    if s == [] {
      assert s + t == t;
    } else {
      var rest, p := s[1..], Pow256(|s| - 1);
      FromLittleEndianConcat(rest, t);
      assert (s + t)[1..] == rest + t;
      assert FromLittleEndian(s + t) == Val(s[0]) + 256 * (FromLittleEndian(rest) + p * v);
      Scale(Val(s[0]), FromLittleEndian(rest), p, v);
    }
  }

  /** The low `k` bytes of `v`, most significant first. */
  function BigEndian(v: nat, k: nat): (s: seq<byte>)
    ensures |s| == k
    decreases k
  {
    if k == 0 then [] else BigEndian(v / 256, k - 1) + [Byte(v % 256)]
  }

  function FromBigEndian(s: seq<byte>): (v: nat)
    decreases |s|
  {
    if s == [] then 0 else 256 * FromBigEndian(s[..|s| - 1]) + Val(s[|s| - 1])
  }

  lemma {:induction false} BigEndianRoundTrip(v: nat, k: nat)
    requires v < Pow256(k)
    ensures FromBigEndian(BigEndian(v, k)) == v
    decreases k
  {
    if k != 0 {
      BigEndianRoundTrip(v / 256, k - 1);
      assert BigEndian(v, k)[..k - 1] == BigEndian(v / 256, k - 1);
    }
  }

  lemma BigEndianInjective(v: nat, w: nat, k: nat)
    requires v < Pow256(k) && w < Pow256(k)
    requires BigEndian(v, k) == BigEndian(w, k)
    ensures v == w
  {
    BigEndianRoundTrip(v, k);
    BigEndianRoundTrip(w, k);
  }

  function Zeros(n: nat): (s: seq<byte>)
    ensures |s| == n
    ensures forall i :: 0 <= i < n ==> s[i] == 0
  {
    seq(n, i => 0)
  }

  lemma NoSmallMultiple(d: int, r: int, size: nat)
    requires size > 0 && 0 <= r < size && d * size == r
    ensures r == 0
  {
    assert d <= 0 || d * size >= size;
  }

  lemma ModOfMultiple(k: nat, size: nat)
    requires size > 0
    ensures k * size % size == 0
  {
    var m := k * size;
    var q, r := m / size, m % size;
    assert m == q * size + r;
    assert (k - q) * size == k * size - q * size;
    NoSmallMultiple(k - q, r, size);
  }
}
