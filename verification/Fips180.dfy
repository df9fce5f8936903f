/** SHA-256 as FIPS 180-4 defines it: the reference the streaming engine is measured against. */
module Fips180 {
  import opened Bytes

  type Word = bv32

  datatype Words = Words(a: Word, b: Word, c: Word, d: Word, e: Word, f: Word, g: Word, h: Word)

  const BLOCK_SIZE: nat := 64

  /** Addition modulo 2^32 (section 3.2). */
  function Add(x: Word, y: Word): Word {
    x + y
  }

  // Section 4.1.2.

  function Xor3(x: Word, y: Word, z: Word): Word {
    x ^ y ^ z
  }

  function Ch(x: Word, y: Word, z: Word): Word {
    (x & y) ^ (!x & z)
  }

  function Maj(x: Word, y: Word, z: Word): Word {
    (x & y) ^ (x & z) ^ (y & z)
  }

  function BigSigma0(x: Word): Word {
    Xor3(x.RotateRight(2), x.RotateRight(13), x.RotateRight(22))
  }

  function BigSigma1(x: Word): Word {
    Xor3(x.RotateRight(6), x.RotateRight(11), x.RotateRight(25))
  }

  function SmallSigma0(x: Word): Word {
    Xor3(x.RotateRight(7), x.RotateRight(18), x >> 3)
  }

  function SmallSigma1(x: Word): Word {
    Xor3(x.RotateRight(17), x.RotateRight(19), x >> 10)
  }

  /** Section 4.2.2. */
  function RoundConstant(t: nat): Word
    requires t < 64
  {
    if t < 16 then
      match t
      case 0 => 0x428a2f98 case 1 => 0x71374491 case 2 => 0xb5c0fbcf case 3 => 0xe9b5dba5
      case 4 => 0x3956c25b case 5 => 0x59f111f1 case 6 => 0x923f82a4 case 7 => 0xab1c5ed5
      case 8 => 0xd807aa98 case 9 => 0x12835b01 case 10 => 0x243185be case 11 => 0x550c7dc3
      case 12 => 0x72be5d74 case 13 => 0x80deb1fe case 14 => 0x9bdc06a7 case _ => 0xc19bf174
    else if t < 32 then
      match t
      case 16 => 0xe49b69c1 case 17 => 0xefbe4786 case 18 => 0x0fc19dc6 case 19 => 0x240ca1cc
      case 20 => 0x2de92c6f case 21 => 0x4a7484aa case 22 => 0x5cb0a9dc case 23 => 0x76f988da
      case 24 => 0x983e5152 case 25 => 0xa831c66d case 26 => 0xb00327c8 case 27 => 0xbf597fc7
      case 28 => 0xc6e00bf3 case 29 => 0xd5a79147 case 30 => 0x06ca6351 case _ => 0x14292967
    else if t < 48 then
      match t
      case 32 => 0x27b70a85 case 33 => 0x2e1b2138 case 34 => 0x4d2c6dfc case 35 => 0x53380d13
      case 36 => 0x650a7354 case 37 => 0x766a0abb case 38 => 0x81c2c92e case 39 => 0x92722c85
      case 40 => 0xa2bfe8a1 case 41 => 0xa81a664b case 42 => 0xc24b8b70 case 43 => 0xc76c51a3
      case 44 => 0xd192e819 case 45 => 0xd6990624 case 46 => 0xf40e3585 case _ => 0x106aa070
    else
      match t
      case 48 => 0x19a4c116 case 49 => 0x1e376c08 case 50 => 0x2748774c case 51 => 0x34b0bcb5
      case 52 => 0x391c0cb3 case 53 => 0x4ed8aa4a case 54 => 0x5b9cca4f case 55 => 0x682e6ff3
      case 56 => 0x748f82ee case 57 => 0x78a5636f case 58 => 0x84c87814 case 59 => 0x8cc70208
      case 60 => 0x90befffa case 61 => 0xa4506ceb case 62 => 0xbef9a3f7 case _ => 0xc67178f2
  }

  // Section 5.3.3.
  const H0: Words := Words(
    0x6A09E667, 0xBB67AE85, 0x3C6EF372, 0xA54FF53A, 0x510E527F, 0x9B05688C, 0x1F83D9AB, 0x5BE0CD19)

  /** The `t`-th 32-bit word of a block, its first byte being the most significant (sections 3.1 and 5.2.1). */
  function MessageWord(block: seq<byte>, t: nat): Word
    requires |block| == BLOCK_SIZE && t < 16
  {
    (block[4 * t] as Word) * 0x100_0000 + (block[4 * t + 1] as Word) * 0x1_0000
    + (block[4 * t + 2] as Word) * 0x100 + (block[4 * t + 3] as Word)
  }

  /** The message schedule of section 6.2.2, step 1. */
  function Schedule(block: seq<byte>, t: nat): Word
    requires |block| == BLOCK_SIZE && t < 64
    decreases t
  {
    if t < 16 then MessageWord(block, t)
    else
      Add(Add(Add(SmallSigma1(Schedule(block, t - 2)), Schedule(block, t - 7)),
              SmallSigma0(Schedule(block, t - 15))),
          Schedule(block, t - 16))
  }

  // One pass of the loop of section 6.2.2, step 3: T1 is `h + Chosen(e, f, g, K_t + W_t)`, T2 is `Voted(a, b, c)`.

  function Chosen(e: Word, f: Word, g: Word, kw: Word): Word {
    Add(Add(BigSigma1(e), Ch(e, f, g)), kw)
  }

  function Voted(a: Word, b: Word, c: Word): Word {
    Add(BigSigma0(a), Maj(a, b, c))
  }

  function Mix(s: Words, u: Word, t2: Word): Words {
    var t1 := Add(s.h, u);
    Words(Add(t1, t2), s.a, s.b, s.c, Add(s.d, t1), s.e, s.f, s.g)
  }

  function Round(s: Words, kw: Word): Words {
    Mix(s, Chosen(s.e, s.f, s.g, kw), Voted(s.a, s.b, s.c))
  }

  function Rounds(s: Words, kws: seq<Word>): Words
    decreases |kws|
  {
    if kws == [] then s else Round(Rounds(s, kws[..|kws| - 1]), kws[|kws| - 1])
  }

  lemma RoundsStep(s: Words, kws: seq<Word>, t: nat)
    requires t < |kws|
    ensures Rounds(s, kws[..t + 1]) == Round(Rounds(s, kws[..t]), kws[t])
  {
    assert kws[..t + 1][..t] == kws[..t];
  }

  function RoundInputs(block: seq<byte>): (kws: seq<Word>)
    requires |block| == BLOCK_SIZE
    ensures |kws| == 64
  {
    seq(64, t requires 0 <= t < 64 => Add(RoundConstant(t), Schedule(block, t)))
  }

  lemma RoundInputAt(block: seq<byte>, t: nat)
    requires |block| == BLOCK_SIZE && t < 64
    ensures RoundInputs(block)[t] == Add(RoundConstant(t), Schedule(block, t))
  {}

  function AddWords(s: Words, t: Words): Words {
    Words(Add(s.a, t.a), Add(s.b, t.b), Add(s.c, t.c), Add(s.d, t.d),
          Add(s.e, t.e), Add(s.f, t.f), Add(s.g, t.g), Add(s.h, t.h))
  }

  /** Section 6.2.2 for one block: schedule, 64 rounds, addition to the previous hash value. */
  function Compress(s: Words, block: seq<byte>): Words {
    if |block| == BLOCK_SIZE then AddWords(s, Rounds(s, RoundInputs(block))) else s
  }

  // Section 5.1.1 on whole bytes: 0x80, zeros up to 56 modulo 64, the bit length on 8 bytes.

  function ZeroBytes(n: nat): nat {
    (119 - n % 64) % 64
  }

  function LengthField(n: nat): (s: seq<byte>)
    ensures |s| == 8
  {
    BigEndian(8 * n, 8)
  }

  function Padding(n: nat): seq<byte> {
    [0x80] + Zeros(ZeroBytes(n)) + LengthField(n)
  }

  function Pad(m: seq<byte>): seq<byte> {
    m + Padding(|m|)
  }

  /** Folds `f` over the 64-byte blocks of `data` (sections 5.2.1 and 6.2.2). */
  function Fold<H>(f: (H, seq<byte>) -> H, h: H, data: seq<byte>): H
    requires |data| % BLOCK_SIZE == 0
    decreases |data|
  {
    if data == [] then h
    else f(Fold(f, h, data[..|data| - BLOCK_SIZE]), data[|data| - BLOCK_SIZE..])
  }

  function WordBytes(w: Word): (s: seq<byte>)
    ensures |s| == 4
  {
    [((w >> 24) & 0xFF) as byte, ((w >> 16) & 0xFF) as byte, ((w >> 8) & 0xFF) as byte, (w & 0xFF) as byte]
  }

  function Encode(s: Words): (d: seq<byte>)
    ensures |d| == 32
  {
    WordBytes(s.a) + WordBytes(s.b) + WordBytes(s.c) + WordBytes(s.d)
    + WordBytes(s.e) + WordBytes(s.f) + WordBytes(s.g) + WordBytes(s.h)
  }

  function Sha256(m: seq<byte>): (d: seq<byte>)
    ensures |d| == 32
  {
    PadLength(|m|);
    Encode(Fold(Compress, H0, Pad(m)))
  }

  /** The double hash that Bitcoin identifies headers, transactions and Merkle nodes by. */
  function DoubleSha256(m: seq<byte>): (d: seq<byte>)
    ensures |d| == 32
  {
    Sha256(Sha256(m))
  }

  /** The last eight bytes of a padded message spell its length in bits, most significant byte first. */
  lemma LengthFieldSpells(m: seq<byte>)
    requires 8 * |m| < TWO_64
    ensures FromBigEndian(Pad(m)[|Pad(m)| - 8..]) == 8 * |m| && Pad(m)[..|m|] == m && Pad(m)[|m|] == 0x80
    ensures forall i :: |m| < i < |Pad(m)| - 8 ==> Pad(m)[i] == 0
  {
    hide BigEndian, FromBigEndian, ZeroBytes;
    Pow256Values();
    BigEndianRoundTrip(8 * |m|, 8);
    assert Pad(m)[|Pad(m)| - 8..] == LengthField(|m|);
  }

  lemma ZeroBytesFill(n: nat)
    ensures (n + 9 + ZeroBytes(n)) % 64 == 0
  {
    var q, r := n / 64, n % 64;
    assert n + 9 + ZeroBytes(n) == 64 * (if r <= 55 then q + 1 else q + 2);
  }

  lemma PadLength(n: nat)
    ensures (n + |Padding(n)|) % BLOCK_SIZE == 0
  {
    assert |Padding(n)| == 9 + ZeroBytes(n);
    ZeroBytesFill(n);
  }

  /** The count of zero bits is the one FIPS asks for: with 8n message bits and the 1 bit, `8 * ZeroBytes(n) + 7`
      is the least k with 8n + 1 + k congruent to 448 modulo 512. */
  lemma ZeroBitsAreLeast(n: nat, k: nat)
    ensures (8 * n + 1 + (8 * ZeroBytes(n) + 7)) % 512 == 448
    ensures (8 * n + 1 + k) % 512 == 448 ==> 8 * ZeroBytes(n) + 7 <= k
  {
    var q, r, z := n / 64, n % 64, ZeroBytes(n);
    var p := if r <= 55 then q else q + 1;
    assert 8 * n + 1 + (8 * z + 7) == 512 * p + 448;
    if k < 8 * z + 7 {
      var d := 8 * z + 7 - k;
      assert d <= 511 && 8 * n + 1 + k == 512 * p + 448 - d;
      Remainder(p, d);
    }
  }

  lemma Remainder(p: int, d: nat)
    requires 0 < d < 512
    ensures (512 * p + 448 - d) % 512 != 448
  {
    if d <= 448 {
      assert (512 * p + (448 - d)) % 512 == 448 - d;
    } else {
      assert (512 * (p - 1) + (960 - d)) % 512 == 960 - d;
    }
  }

  lemma MultiplesApart(l: nat, k: nat)
    requires k % 64 == 0
    ensures l % 64 == 0 && l < k ==> l + 64 <= k
  {
    var p, q := l / 64, k / 64;
    assert l % 64 == 0 && l < k ==> p < q;
  }

  /** The padded message has the least multiple of 64 that holds the message, the marker byte and the length. */
  lemma PadIsShortest(m: seq<byte>, l: nat)
    ensures |Pad(m)| % 64 == 0 && |Pad(m)| >= |m| + 9
    ensures l % 64 == 0 && l >= |m| + 9 ==> |Pad(m)| <= l
  {
    PadLength(|m|);
    assert |Pad(m)| == |m| + 9 + ZeroBytes(|m|) <= |m| + 9 + 63;
    MultiplesApart(l, |Pad(m)|);
  }

  /** Padding loses nothing: distinct messages give distinct padded streams. The 64-bit length field covers
      every message the engine can count, and every one FIPS admits. */
  lemma PadInjective(m: seq<byte>, n: seq<byte>)
    requires 8 * |m| < TWO_64 && 8 * |n| < TWO_64
    requires Pad(m) == Pad(n)
    ensures m == n
  {
    hide BigEndian;
    var p, q := Pad(m), Pad(n);
    var u, v := LengthField(|m|), LengthField(|n|);
    assert p[|p| - 8..] == u && q[|q| - 8..] == v;
    Pow256Values();
    BigEndianInjective(8 * |m|, 8 * |n|, 8);
    assert p[..|m|] == m && q[..|n|] == n;
  }

  // The round function is invertible.

  function Sub(x: Word, y: Word): Word {
    x - y
  }

  function Unmix(s: Words, u: Word, t2: Word): Words {
    var t1 := Sub(s.a, t2);
    Words(s.b, s.c, s.d, Sub(s.e, t1), s.f, s.g, s.h, Sub(t1, u))
  }

  function Unround(s: Words, kw: Word): Words {
    Unmix(s, Chosen(s.f, s.g, s.h, kw), Voted(s.b, s.c, s.d))
  }

  function Unrounds(s: Words, kws: seq<Word>): Words
    decreases |kws|
  {
    if kws == [] then s else Unrounds(Unround(s, kws[|kws| - 1]), kws[..|kws| - 1])
  }

  lemma Cancel(x: Word, y: Word)
    ensures Sub(Add(x, y), y) == x && Add(Sub(x, y), y) == x
  {
    assert Sub(x + y, y) == x;
    assert Add(x - y, y) == x;
  }

  lemma MixThenUnmix(s: Words, u: Word, t2: Word)
    ensures Unmix(Mix(s, u, t2), u, t2) == s
  {
    Cancel(Add(s.h, u), t2);
    Cancel(s.d, Add(s.h, u));
    Cancel(s.h, u);
  }

  lemma UnmixThenMix(s: Words, u: Word, t2: Word)
    ensures Mix(Unmix(s, u, t2), u, t2) == s
  {
    Cancel(s.a, t2);
    Cancel(Sub(s.a, t2), u);
    Cancel(s.e, Sub(s.a, t2));
  }

  lemma RoundInverse(s: Words, kw: Word)
    ensures Unround(Round(s, kw), kw) == s
    ensures Round(Unround(s, kw), kw) == s
  {
    MixThenUnmix(s, Chosen(s.e, s.f, s.g, kw), Voted(s.a, s.b, s.c));
    UnmixThenMix(s, Chosen(s.f, s.g, s.h, kw), Voted(s.b, s.c, s.d));
  }

  /** For every block the rounds permute the eight-word state: `Unrounds` is their two-sided inverse. */
  lemma {:induction false} RoundsBijective(s: Words, kws: seq<Word>)
    ensures Unrounds(Rounds(s, kws), kws) == s
    ensures Rounds(Unrounds(s, kws), kws) == s
    decreases |kws|
  {
    if kws != [] {
      var init, kw := kws[..|kws| - 1], kws[|kws| - 1];
      RoundInverse(Rounds(s, init), kw);
      RoundsBijective(s, init);
      RoundsBijective(Unround(s, kw), init);
      RoundInverse(s, kw);
    }
  }

  /** `MessageWord` reads back what `WordBytes` wrote. */
  lemma WordBytesRoundTrip(w: Word, block: seq<byte>, t: nat)
    requires |block| == BLOCK_SIZE && t < 16
    requires block[4 * t..4 * t + 4] == WordBytes(w)
    ensures MessageWord(block, t) == w
  {
    var s := block[4 * t..4 * t + 4];
    assert block[4 * t] == s[0] && block[4 * t + 1] == s[1] && block[4 * t + 2] == s[2] && block[4 * t + 3] == s[3];
  }
}
