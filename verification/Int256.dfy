/** 256-bit little-endian comparison (bc_utils.h) and the expansion of a header's `bits` into a target
    (main_block_solver.c). */
module Int256 {
  import opened Bytes

  /** The comparison from the `i`-th byte below the top on. */
  function CompareFrom(lhs: seq<byte>, rhs: seq<byte>, i: nat): int
    requires |lhs| == |rhs| == 32 && i <= 32
    decreases 32 - i
  {
    if i == 32 then 0
    else
      var c := Val(lhs[31 - i]) - Val(rhs[31 - i]);
      if c > 0 then 1 + i else if c < 0 then -1 - i else CompareFrom(lhs, rhs, i + 1)
  }

  function Compare(lhs: seq<byte>, rhs: seq<byte>): int
    requires |lhs| == |rhs| == 32
  {
    CompareFrom(lhs, rhs, 0)
  }

  predicate LessOrEqual(lhs: seq<byte>, rhs: seq<byte>)
    requires |lhs| == |rhs| == 32
  {
    Compare(lhs, rhs) <= 0
  }

  method I256Compare(lhs: array<byte>, rhs: array<byte>) returns (r: int)
    requires lhs.Length >= 32 && rhs.Length >= 32
    ensures r == Compare(lhs[..32], rhs[..32])
  {
    hide Val;
    var i, j := 0, 31;
    while i < 32
      invariant 0 <= i <= 32 && j == 31 - i
      invariant CompareFrom(lhs[..32], rhs[..32], i) == Compare(lhs[..32], rhs[..32])
    {
      var c := Val(lhs[j]) - Val(rhs[j]);
      if c > 0 {
        return 1 + i;
      }
      if c < 0 {
        return -1 - i;
      }
      i, j := i + 1, j - 1;
    }
    return 0;
  }

  method I256Le(lhs: array<byte>, rhs: array<byte>) returns (r: bool)
    requires lhs.Length >= 32 && rhs.Length >= 32
    ensures r == LessOrEqual(lhs[..32], rhs[..32])
  {
    var c := I256Compare(lhs, rhs);
    r := c <= 0;
  }

  /** A number in three parts: below byte `k`, that byte, above it. */
  lemma ValueSplit(s: seq<byte>, k: nat)
    requires k < |s|
    ensures FromLittleEndian(s) == FromLittleEndian(s[..k]) + Pow256(k) * FromLittleEndian(s[k..])
    ensures FromLittleEndian(s[k..]) == Val(s[k]) + 256 * FromLittleEndian(s[k + 1..])
    ensures FromLittleEndian(s[..k]) < Pow256(k)
  {
    hide Val, Pow256;
    assert s == s[..k] + s[k..] && s[k..][1..] == s[k + 1..];
    FromLittleEndianConcat(s[..k], s[k..]);
    FromLittleEndianBound(s[..k]);
  }

  /** The top byte in which two numbers differ decides. */
  lemma TopByteDecides(lhs: seq<byte>, rhs: seq<byte>, k: nat)
    requires |lhs| == |rhs| && k < |lhs|
    requires lhs[k + 1..] == rhs[k + 1..] && Val(lhs[k]) < Val(rhs[k])
    ensures FromLittleEndian(lhs) < FromLittleEndian(rhs)
  {
    hide Val, Pow256, FromLittleEndian;
    ValueSplit(lhs, k);
    ValueSplit(rhs, k);
    LeadBeats(FromLittleEndian(lhs[..k]), FromLittleEndian(rhs[..k]), Pow256(k),
              FromLittleEndian(lhs[k..]), FromLittleEndian(rhs[k..]));
  }

  lemma LeadBeats(u: nat, v: nat, p: nat, x: nat, y: nat)
    requires u < p && x < y
    ensures u + p * x < v + p * y
  {
    assert p * x + p <= p * y by {
      assert p * (x + 1) <= p * y;
    }
  }

  /** The sign is that of the difference of the two numbers, and a non-zero magnitude is one more than the count of
      equal bytes above the first difference. */
  lemma {:induction false} CompareFromMeaning(lhs: seq<byte>, rhs: seq<byte>, i: nat)
    requires |lhs| == |rhs| == 32 && i <= 32 && lhs[32 - i..] == rhs[32 - i..]
    ensures var c := CompareFrom(lhs, rhs, i);
            && (c < 0 <==> FromLittleEndian(lhs) < FromLittleEndian(rhs))
            && (c > 0 <==> FromLittleEndian(lhs) > FromLittleEndian(rhs))
            && (c == 0 <==> lhs == rhs)
            && (c != 0 ==> var n := (if c > 0 then c else -c) - 1;
                           i <= n < 32 && lhs[32 - n..] == rhs[32 - n..] && lhs[31 - n] != rhs[31 - n])
    decreases 32 - i
  {
    hide Val, FromLittleEndian;
    if i == 32 {
      assert lhs == lhs[0..] && rhs == rhs[0..];
    } else {
      var k := 31 - i;
      if Val(lhs[k]) < Val(rhs[k]) {
        TopByteDecides(lhs, rhs, k);
      } else if Val(lhs[k]) > Val(rhs[k]) {
        TopByteDecides(rhs, lhs, k);
      } else {
        ValInjective(lhs[k], rhs[k]);
        assert lhs[k..] == [lhs[k]] + lhs[k + 1..] && rhs[k..] == [rhs[k]] + rhs[k + 1..];
        CompareFromMeaning(lhs, rhs, i + 1);
      }
    }
  }

  lemma CompareMeaning(lhs: seq<byte>, rhs: seq<byte>)
    requires |lhs| == |rhs| == 32
    ensures var c := Compare(lhs, rhs);
            && (c < 0 <==> FromLittleEndian(lhs) < FromLittleEndian(rhs))
            && (c > 0 <==> FromLittleEndian(lhs) > FromLittleEndian(rhs))
            && (c == 0 <==> lhs == rhs)
            && (c != 0 ==> var n := (if c > 0 then c else -c) - 1;
                           n < 32 && lhs[32 - n..] == rhs[32 - n..] && lhs[31 - n] != rhs[31 - n])
  {
    CompareFromMeaning(lhs, rhs, 0);
  }

  lemma {:induction false} CompareFromAntisymmetric(lhs: seq<byte>, rhs: seq<byte>, i: nat)
    requires |lhs| == |rhs| == 32 && i <= 32
    ensures CompareFrom(lhs, rhs, i) == -CompareFrom(rhs, lhs, i)
    decreases 32 - i
  {
    if i < 32 {
      CompareFromAntisymmetric(lhs, rhs, i + 1);
    }
  }

  lemma CompareAntisymmetric(lhs: seq<byte>, rhs: seq<byte>)
    requires |lhs| == |rhs| == 32
    ensures Compare(lhs, rhs) == -Compare(rhs, lhs)
  {
    CompareFromAntisymmetric(lhs, rhs, 0);
  }

  // Compact targets.

  function Exponent(bits: nat): nat {
    bits / 0x100_0000 % 256
  }

  function Mantissa(bits: nat): nat {
    bits % 0x100_0000
  }

  /** What exponent and mantissa are of the 32 bits: the top byte, and the other three. */
  lemma BitsSplit(bits: nat)
    requires bits < TWO_32
    ensures Exponent(bits) < 0x100 && Mantissa(bits) < 0x100_0000
    ensures bits == Exponent(bits) * 0x100_0000 + Mantissa(bits)
  {}

  /** The index computed as the exponent less `k`, in 32 bits. */
  function ByteIndex(bits: nat, k: nat): nat
    requires k <= 3
  {
    (Exponent(bits) + TWO_32 - k) % TWO_32
  }

  /** The three mantissa bytes are stored below byte `exponent`: they lie in the 32-byte target exactly for exponents 3
      to 32. */
  lemma InTargetExactly(bits: nat)
    ensures (forall k: nat :: 1 <= k <= 3 ==> ByteIndex(bits, k) < 32) <==> 3 <= Exponent(bits) <= 32
  {
    assert ByteIndex(bits, 1) == if Exponent(bits) < 1 then TWO_32 - 1 else Exponent(bits) - 1;
    assert ByteIndex(bits, 3) == if Exponent(bits) < 3 then Exponent(bits) + TWO_32 - 3 else Exponent(bits) - 3;
  }

  lemma MantissaBound(bits: nat)
    ensures Mantissa(bits) < 0x100_0000
  {}

  lemma ByteIndexBelow(bits: nat, k: nat)
    requires 3 <= Exponent(bits) <= 32 && 1 <= k <= 3
    ensures ByteIndex(bits, k) == Exponent(bits) - k
  {}

  method ExpandBits(bits: nat, target: array<byte>)
    requires target.Length == 32 && 3 <= Exponent(bits) <= 32
    modifies target
    ensures FromLittleEndian(target[..]) == Mantissa(bits) * Pow256(Exponent(bits) - 3)
  {
    hide ByteIndex, Exponent, Mantissa;
    var exp, cff := Exponent(bits), Mantissa(bits);
    MantissaBound(bits);
    ByteIndexBelow(bits, 3);
    ByteIndexBelow(bits, 2);
    ByteIndexBelow(bits, 1);
    forall i | 0 <= i < 32 {
      target[i] := 0;
    }
    target[ByteIndex(bits, 3)] := Byte(cff % 256);
    target[ByteIndex(bits, 2)] := Byte(cff / 0x100 % 256);
    target[ByteIndex(bits, 1)] := Byte(cff / 0x1_0000 % 256);
    ghost var low := [Byte(cff % 256), Byte(cff / 0x100 % 256), Byte(cff / 0x1_0000 % 256)];
    hide Byte, Pow256, FromLittleEndian;
    assert target[..] == Zeros(exp - 3) + low + Zeros(32 - exp);
    ThreeBytesAt(cff, exp - 3, 32 - exp);
  }

  lemma ThreeBytesAt(v: nat, below: nat, above: nat)
    requires v < 0x100_0000
    ensures FromLittleEndian(Zeros(below) + [Byte(v % 256), Byte(v / 0x100 % 256), Byte(v / 0x1_0000 % 256)]
                             + Zeros(above)) == v * Pow256(below)
  {
    var low := [Byte(v % 256), Byte(v / 0x100 % 256), Byte(v / 0x1_0000 % 256)];
    FromThreeBytes(v);
    Placed(low, below, above);
  }

  lemma Placed(s: seq<byte>, below: nat, above: nat)
    ensures FromLittleEndian(Zeros(below) + s + Zeros(above)) == FromLittleEndian(s) * Pow256(below)
  {
    hide Val, Pow256, FromLittleEndian;
    assert Zeros(below) + s + Zeros(above) == Zeros(below) + (s + Zeros(above));
    FromLittleEndianConcat(Zeros(below), s + Zeros(above));
    FromLittleEndianConcat(s, Zeros(above));
    FromZeros(below);
    FromZeros(above);
  }

  lemma FromThreeBytes(v: nat)
    requires v < 0x100_0000
    ensures FromLittleEndian([Byte(v % 256), Byte(v / 0x100 % 256), Byte(v / 0x1_0000 % 256)]) == v
  {
    hide FromLittleEndian, Byte;
    FromBytes(v % 256, v / 0x100 % 256, v / 0x1_0000 % 256);
    Digits(v);
  }

  lemma Digits(v: nat)
    requires v < 0x100_0000
    ensures v == v % 256 + 256 * (v / 0x100 % 256 + 256 * (v / 0x1_0000 % 256))
  {
    var w := v / 0x100;
    assert v / 0x1_0000 == w / 256;
  }

  lemma FromBytes(x: nat, y: nat, z: nat)
    requires x < 256 && y < 256 && z < 256
    ensures FromLittleEndian([Byte(x), Byte(y), Byte(z)]) == x + 256 * (y + 256 * z)
  {
    var b0, b1, b2 := Byte(x), Byte(y), Byte(z);
    hide Val, Byte;
    assert [b0, b1, b2][1..] == [b1, b2] && [b1, b2][1..] == [b2] && [b2][1..] == [];
    assert FromLittleEndian([b2]) == z;
    assert FromLittleEndian([b1, b2]) == y + 256 * z;
  }

  lemma {:induction false} FromZeros(n: nat)
    ensures FromLittleEndian(Zeros(n)) == 0
  {
    if n > 0 {
      FromZeros(n - 1);
      assert Zeros(n)[1..] == Zeros(n - 1);
    }
  }

  /** With the expanded target, `i256_le` is the proof-of-work inequality. */
  lemma LessOrEqualMeetsBits(hash: seq<byte>, target: seq<byte>, bits: nat)
    requires |hash| == |target| == 32 && 3 <= Exponent(bits) <= 32
    requires FromLittleEndian(target) == Mantissa(bits) * Pow256(Exponent(bits) - 3)
    ensures LessOrEqual(hash, target)
       <==> FromLittleEndian(hash) <= Mantissa(bits) * Pow256(Exponent(bits) - 3)
  {
    CompareMeaning(hash, target);
  }
}
