/** The compression step of sha256.c: bit helpers written with masked shifts, and the loops of
    `sha256_solve_block` over a 64-word schedule and eight rotating variables. */
module Sha256Block {
  import opened Bytes
  import opened Fips180

  function Shl(x: Word, n: Word): Word {
    x << (31 & n)
  }

  function Shr(x: Word, n: Word): Word {
    x >> (31 & n)
  }

  function Rtr(x: Word, n: Word): Word {
    Shr(x, n) | Shl(x, 32 - n)
  }

  function Bsig0(x: Word): Word {
    Xor3(Rtr(x, 2), Rtr(x, 13), Rtr(x, 22))
  }

  function Bsig1(x: Word): Word {
    Xor3(Rtr(x, 6), Rtr(x, 11), Rtr(x, 25))
  }

  function Ssig0(x: Word): Word {
    Xor3(Rtr(x, 7), Rtr(x, 18), Shr(x, 3))
  }

  function Ssig1(x: Word): Word {
    Xor3(Rtr(x, 17), Rtr(x, 19), Shr(x, 10))
  }

  // The masked shifts rotate: the mask never cuts an amount that is used. One lemma an amount.

  lemma Rtr2(x: Word)
    ensures Rtr(x, 2) == x.RotateRight(2)
  {}

  lemma Rtr6(x: Word)
    ensures Rtr(x, 6) == x.RotateRight(6)
  {}

  lemma Rtr7(x: Word)
    ensures Rtr(x, 7) == x.RotateRight(7)
  {}

  lemma Rtr11(x: Word)
    ensures Rtr(x, 11) == x.RotateRight(11)
  {}

  lemma Rtr13(x: Word)
    ensures Rtr(x, 13) == x.RotateRight(13)
  {}

  lemma Rtr17(x: Word)
    ensures Rtr(x, 17) == x.RotateRight(17)
  {}

  lemma Rtr18(x: Word)
    ensures Rtr(x, 18) == x.RotateRight(18)
  {}

  lemma Rtr19(x: Word)
    ensures Rtr(x, 19) == x.RotateRight(19)
  {}

  lemma Rtr22(x: Word)
    ensures Rtr(x, 22) == x.RotateRight(22)
  {}

  lemma Rtr25(x: Word)
    ensures Rtr(x, 25) == x.RotateRight(25)
  {}

  lemma Bsig0IsFips(x: Word)
    ensures Bsig0(x) == BigSigma0(x)
  {
    Rtr2(x);
    Rtr13(x);
    Rtr22(x);
  }

  lemma Bsig1IsFips(x: Word)
    ensures Bsig1(x) == BigSigma1(x)
  {
    Rtr6(x);
    Rtr11(x);
    Rtr25(x);
  }

  lemma Ssig0IsFips(x: Word)
    ensures Ssig0(x) == SmallSigma0(x)
  {
    Rtr7(x);
    Rtr18(x);
    assert Shr(x, 3) == x >> 3;
  }

  lemma Ssig1IsFips(x: Word)
    ensures Ssig1(x) == SmallSigma1(x)
  {
    Rtr17(x);
    Rtr19(x);
    assert Shr(x, 10) == x >> 10;
  }

  function LoadWord(b0: byte, b1: byte, b2: byte, b3: byte): Word {
    ((b0 as Word) << 24) | ((b1 as Word) << 16) | ((b2 as Word) << 8) | (b3 as Word)
  }

  lemma LoadWordIsBigEndian(b0: byte, b1: byte, b2: byte, b3: byte)
    ensures LoadWord(b0, b1, b2, b3)
         == (b0 as Word) * 0x100_0000 + (b1 as Word) * 0x1_0000 + (b2 as Word) * 0x100 + (b3 as Word)
  {}

  function WordsOf(s: seq<Word>): Words
    requires |s| == 8
  {
    Words(s[0], s[1], s[2], s[3], s[4], s[5], s[6], s[7])
  }

  lemma AddAssociative(x: Word, y: Word, z: Word)
    ensures Add(Add(x, y), z) == Add(x, Add(y, z))
  {
    assert Add(x + y, z) == x + y + z;
    assert Add(x, y + z) == x + y + z;
  }

  lemma T1Regroups(h: Word, p: Word, q: Word, k: Word, w: Word)
    ensures Add(Add(Add(Add(h, p), q), k), w) == Add(h, Add(Add(p, q), Add(k, w)))
  {
    AddAssociative(Add(Add(h, p), q), k, w);
    AddAssociative(h, p, q);
    AddAssociative(h, Add(p, q), Add(k, w));
  }

  /** The loop body of the code is one FIPS round. */
  lemma RoundInCode(s: Words, k: Word, w: Word)
    ensures var t1 := Add(Add(Add(Add(s.h, Bsig1(s.e)), Ch(s.e, s.f, s.g)), k), w);
            var t2 := Add(Bsig0(s.a), Maj(s.a, s.b, s.c));
            Round(s, Add(k, w)) == Words(Add(t1, t2), s.a, s.b, s.c, Add(s.d, t1), s.e, s.f, s.g)
  {
    Bsig0IsFips(s.a);
    Bsig1IsFips(s.e);
    T1Regroups(s.h, BigSigma1(s.e), Ch(s.e, s.f, s.g), k, w);
  }

  lemma ScheduleFirst(block: seq<byte>, t: nat)
    requires |block| == BLOCK_SIZE && t < 16
    ensures Schedule(block, t) == LoadWord(block[4 * t], block[4 * t + 1], block[4 * t + 2], block[4 * t + 3])
  {
    LoadWordIsBigEndian(block[4 * t], block[4 * t + 1], block[4 * t + 2], block[4 * t + 3]);
  }

  lemma ScheduleNext(block: seq<byte>, t: nat)
    requires |block| == BLOCK_SIZE && 16 <= t < 64
    ensures Schedule(block, t)
         == Add(Add(Add(Ssig1(Schedule(block, t - 2)), Schedule(block, t - 7)), Ssig0(Schedule(block, t - 15))),
                Schedule(block, t - 16))
  {
    hide Add, Ssig0, Ssig1, SmallSigma0, SmallSigma1;
    Ssig1IsFips(Schedule(block, t - 2));
    Ssig0IsFips(Schedule(block, t - 15));
  }

  /** `w` holds the message schedule of `block`. */
  method FillSchedule(block: array<byte>) returns (w: array<Word>)
    requires block.Length == BLOCK_SIZE
    ensures fresh(w) && w.Length == 64
    ensures forall t :: 0 <= t < 64 ==> w[t] == Schedule(block[..], t)
  {
    hide Schedule, Add, Ssig0, Ssig1, LoadWord;
    w := new Word[64](_ => 0);
    var t, q := 0, 0;
    while t < 16
      invariant 0 <= t <= 16 && q == 4 * t
      invariant forall i :: 0 <= i < t ==> w[i] == Schedule(block[..], i)
    {
      ScheduleFirst(block[..], t);
      w[t] := LoadWord(block[q], block[q + 1], block[q + 2], block[q + 3]);
      t, q := t + 1, q + 4;
    }
    while t < 64
      invariant 16 <= t <= 64
      invariant forall i :: 0 <= i < t ==> w[i] == Schedule(block[..], i)
    {
      ScheduleNext(block[..], t);
      w[t] := Add(Add(Add(Ssig1(w[t - 2]), w[t - 7]), Ssig0(w[t - 15])), w[t - 16]);
      t := t + 1;
    }
  }

  /** The 64-pass loop over the rotating variables. */
  method RunRounds(initial: Words, w: array<Word>, ghost data: seq<byte>) returns (final: Words)
    requires |data| == BLOCK_SIZE && w.Length == 64
    requires forall t :: 0 <= t < 64 ==> w[t] == Schedule(data, t)
    ensures final == Rounds(initial, RoundInputs(data))
  {
    hide RoundConstant, Schedule, Round, Add, Bsig0, Bsig1, Ch, Maj;
    ghost var kws := RoundInputs(data);
    var Words(a, b, c, d, e, f, g, h) := initial;
    for t := 0 to 64
      invariant Words(a, b, c, d, e, f, g, h) == Rounds(initial, kws[..t])
    {
      var t1 := Add(Add(Add(Add(h, Bsig1(e)), Ch(e, f, g)), RoundConstant(t)), w[t]);
      var t2 := Add(Bsig0(a), Maj(a, b, c));
      RoundInputAt(data, t);
      RoundsStep(initial, kws, t);
      RoundInCode(Words(a, b, c, d, e, f, g, h), RoundConstant(t), w[t]);
      h, g, f, e := g, f, e, Add(d, t1);
      d, c, b, a := c, b, a, Add(t1, t2);
    }
    assert kws[..64] == kws;
    final := Words(a, b, c, d, e, f, g, h);
  }

  method AddInto(hash: array<Word>, s: Words)
    requires hash.Length == 8
    modifies hash
    ensures WordsOf(hash[..]) == AddWords(WordsOf(old(hash[..])), s)
  {
    hash[0], hash[1], hash[2], hash[3] := Add(hash[0], s.a), Add(hash[1], s.b), Add(hash[2], s.c), Add(hash[3], s.d);
    hash[4], hash[5], hash[6], hash[7] := Add(hash[4], s.e), Add(hash[5], s.f), Add(hash[6], s.g), Add(hash[7], s.h);
  }

  /** One block is absorbed into `hash` exactly as FIPS 180-4 says. */
  method SolveBlock(block: array<byte>, hash: array<Word>)
    requires block.Length == BLOCK_SIZE && hash.Length == 8
    modifies hash
    ensures WordsOf(hash[..]) == Compress(WordsOf(old(hash[..])), old(block[..]))
  {
    ghost var data := block[..];
    var w := FillSchedule(block);
    assert block[..] == data;
    var s := RunRounds(WordsOf(hash[..]), w, data);
    AddInto(hash, s);
  }
}
