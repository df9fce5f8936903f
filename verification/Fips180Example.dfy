/** The one-block example of FIPS 180-4: the hash of "abc", schedule word by schedule word and round by round. It holds
    the functions, constants and byte orders of the reference to values that are not computed from them. */
module Fips180Example {
  import opened Bytes
  import opened Fips180
  import Fips180Constants

  const ABC: seq<byte> := [0x61, 0x62, 0x63]

  /** The block: the message, the marker byte, 52 zeros, and the bit length 24. */
  function Block(): (s: seq<byte>)
    ensures |s| == BLOCK_SIZE
  {
    ABC + [0x80] + Zeros(52) + [0, 0, 0, 0, 0, 0, 0, 24]
  }

  lemma BlockIsPadded()
    ensures Pad(ABC) == Block()
  {
    hide BigEndian;
    LastDigit(24, 8);
  }

  /** A number below 256 is its last byte. */
  lemma LastDigit(v: nat, k: nat)
    requires v < 256 && k > 0
    ensures BigEndian(v, k) == Zeros(k - 1) + [Byte(v)]
  {
    ZeroDigits(k - 1);
  }

  lemma {:induction false} ZeroDigits(k: nat)
    ensures BigEndian(0, k) == Zeros(k)
  {
    if k > 0 {
      ZeroDigits(k - 1);
    }
  }

  // The message schedule.

  lemma BlockBytes(t: nat)
    requires t < 16
    ensures var b := Block();
            [b[4 * t], b[4 * t + 1], b[4 * t + 2], b[4 * t + 3]]
            == if t == 0 then [0x61, 0x62, 0x63, 0x80] else if t == 15 then [0, 0, 0, 24] else [0, 0, 0, 0]
  {}

  function Spelled(b: seq<byte>): Word
    requires |b| == 4
  {
    (b[0] as Word) * 0x100_0000 + (b[1] as Word) * 0x1_0000 + (b[2] as Word) * 0x100 + (b[3] as Word)
  }

  lemma SpelledWords()
    ensures Spelled([0x61, 0x62, 0x63, 0x80]) == 0x61626380
    ensures Spelled([0, 0, 0, 24]) == 24 && Spelled([0, 0, 0, 0]) == 0
  {}

  function FirstWord(t: nat): Word {
    if t == 0 then 0x61626380 else if t == 15 then 24 else 0
  }

  lemma FirstWordIs(t: nat)
    requires t < 16
    ensures MessageWord(Block(), t) == FirstWord(t)
  {
    hide Block;
    var b := Block();
    BlockBytes(t);
    SpelledWords();
    assert MessageWord(b, t) == Spelled([b[4 * t], b[4 * t + 1], b[4 * t + 2], b[4 * t + 3]]);
  }

  /** `w` obeys the recurrence of the message schedule, from the example's first words. */
  ghost predicate Scheduled(w: seq<Word>) {
    && |w| == 64 && (forall t :: 0 <= t < 16 ==> w[t] == FirstWord(t))
    && (forall t :: 16 <= t < 64 ==>
          w[t] == Add(Add(Add(SmallSigma1(w[t - 2]), w[t - 7]), SmallSigma0(w[t - 15])), w[t - 16]))
  }

  function WordsOfBlock(): (w: seq<Word>)
    ensures |w| == 64
  {
    seq(64, t requires 0 <= t < 64 => Schedule(Block(), t))
  }

  lemma LaterWord(b: seq<byte>, t: nat)
    requires |b| == BLOCK_SIZE && 16 <= t < 64
    ensures Schedule(b, t)
         == Add(Add(Add(SmallSigma1(Schedule(b, t - 2)), Schedule(b, t - 7)), SmallSigma0(Schedule(b, t - 15))),
                Schedule(b, t - 16))
  {
    hide Add, SmallSigma0, SmallSigma1;
  }

  lemma EarlyWord(b: seq<byte>, t: nat)
    requires |b| == BLOCK_SIZE && t < 16
    ensures Schedule(b, t) == MessageWord(b, t)
  {}

  lemma BlockScheduled()
    ensures Scheduled(WordsOfBlock())
  {
    hide Add, SmallSigma0, SmallSigma1, Block, MessageWord, FirstWord;
    var w := WordsOfBlock();
    forall t | 16 <= t < 64
      ensures w[t] == Add(Add(Add(SmallSigma1(w[t - 2]), w[t - 7]), SmallSigma0(w[t - 15])), w[t - 16])
    {
      LaterWord(Block(), t);
    }
    hide Schedule;
    forall t | 0 <= t < 16
      ensures w[t] == FirstWord(t)
    {
      EarlyWord(Block(), t);
      FirstWordIs(t);
    }
  }

  lemma First(w: seq<Word>, t: nat)
    requires Scheduled(w) && t < 16
    ensures |w| == 64 && w[t] == FirstWord(t)
  {}

  lemma Later(w: seq<Word>, t: nat)
    requires Scheduled(w) && 16 <= t < 64
    ensures |w| == 64 && w[t] == Add(Add(Add(SmallSigma1(w[t - 2]), w[t - 7]), SmallSigma0(w[t - 15])), w[t - 16])
  {
    hide Add, SmallSigma0, SmallSigma1;
  }

  predicate Part0(w: seq<Word>)
    requires |w| == 64
  {
    && w[0] == 0x61626380 && w[1] == 0x00000000 && w[2] == 0x00000000 && w[3] == 0x00000000
    && w[4] == 0x00000000 && w[5] == 0x00000000 && w[6] == 0x00000000 && w[7] == 0x00000000
  }

  predicate Part1(w: seq<Word>)
    requires |w| == 64
  {
    && w[8] == 0x00000000 && w[9] == 0x00000000 && w[10] == 0x00000000 && w[11] == 0x00000000
    && w[12] == 0x00000000 && w[13] == 0x00000000 && w[14] == 0x00000000 && w[15] == 0x00000018
  }

  predicate Part2(w: seq<Word>)
    requires |w| == 64
  {
    && w[16] == 0x61626380 && w[17] == 0x000f0000 && w[18] == 0x7da86405 && w[19] == 0x600003c6
    && w[20] == 0x3e9d7b78 && w[21] == 0x0183fc00 && w[22] == 0x12dcbfdb && w[23] == 0xe2e2c38e
  }

  predicate Part3(w: seq<Word>)
    requires |w| == 64
  {
    && w[24] == 0xc8215c1a && w[25] == 0xb73679a2 && w[26] == 0xe5bc3909 && w[27] == 0x32663c5b
    && w[28] == 0x9d209d67 && w[29] == 0xec8726cb && w[30] == 0x702138a4 && w[31] == 0xd3b7973b
  }

  predicate Part4(w: seq<Word>)
    requires |w| == 64
  {
    && w[32] == 0x93f5997f && w[33] == 0x3b68ba73 && w[34] == 0xaff4ffc1 && w[35] == 0xf10a5c62
    && w[36] == 0x0a8b3996 && w[37] == 0x72af830a && w[38] == 0x9409e33e && w[39] == 0x24641522
  }

  predicate Part5(w: seq<Word>)
    requires |w| == 64
  {
    && w[40] == 0x9f47bf94 && w[41] == 0xf0a64f5a && w[42] == 0x3e246a79 && w[43] == 0x27333ba3
    && w[44] == 0x0c4763f2 && w[45] == 0x840abf27 && w[46] == 0x7a290d5d && w[47] == 0x065c43da
  }

  predicate Part6(w: seq<Word>)
    requires |w| == 64
  {
    && w[48] == 0xfb3e89cb && w[49] == 0xcc7617db && w[50] == 0xb9e66c34 && w[51] == 0xa9993667
    && w[52] == 0x84badedd && w[53] == 0xc21462bc && w[54] == 0x1487472c && w[55] == 0xb20f7a99
  }

  predicate Part7(w: seq<Word>)
    requires |w| == 64
  {
    && w[56] == 0xef57b9cd && w[57] == 0xebe6b238 && w[58] == 0x9fe3095e && w[59] == 0x78bc8d4b
    && w[60] == 0xa43fcf15 && w[61] == 0x668b2ff8 && w[62] == 0xeeaba2cc && w[63] == 0x12b1edeb
  }

  lemma FirstParts(w: seq<Word>)
    requires Scheduled(w)
    ensures |w| == 64 && Part0(w) && Part1(w)
  {
    hide Scheduled;
    First(w, 0);
    First(w, 1);
    First(w, 2);
    First(w, 3);
    First(w, 4);
    First(w, 5);
    First(w, 6);
    First(w, 7);
    First(w, 8);
    First(w, 9);
    First(w, 10);
    First(w, 11);
    First(w, 12);
    First(w, 13);
    First(w, 14);
    First(w, 15);
  }

  lemma Sums2()
    ensures Add(Add(Add(SmallSigma1(0x00000000), 0x00000000), SmallSigma0(0x00000000)), 0x61626380) == 0x61626380
    ensures Add(Add(Add(SmallSigma1(0x00000018), 0x00000000), SmallSigma0(0x00000000)), 0x00000000) == 0x000f0000
    ensures Add(Add(Add(SmallSigma1(0x61626380), 0x00000000), SmallSigma0(0x00000000)), 0x00000000) == 0x7da86405
    ensures Add(Add(Add(SmallSigma1(0x000f0000), 0x00000000), SmallSigma0(0x00000000)), 0x00000000) == 0x600003c6
    ensures Add(Add(Add(SmallSigma1(0x7da86405), 0x00000000), SmallSigma0(0x00000000)), 0x00000000) == 0x3e9d7b78
    ensures Add(Add(Add(SmallSigma1(0x600003c6), 0x00000000), SmallSigma0(0x00000000)), 0x00000000) == 0x0183fc00
    ensures Add(Add(Add(SmallSigma1(0x3e9d7b78), 0x00000018), SmallSigma0(0x00000000)), 0x00000000) == 0x12dcbfdb
    ensures Add(Add(Add(SmallSigma1(0x0183fc00), 0x61626380), SmallSigma0(0x00000000)), 0x00000000) == 0xe2e2c38e
  {}

  lemma NextPart2(w: seq<Word>)
    requires Scheduled(w) && |w| == 64 && Part0(w) && Part1(w)
    ensures Part2(w)
  {
    hide Scheduled, Add, SmallSigma0, SmallSigma1;
    Sums2();
    Later(w, 16);
    Later(w, 17);
    Later(w, 18);
    Later(w, 19);
    Later(w, 20);
    Later(w, 21);
    Later(w, 22);
    Later(w, 23);
  }

  lemma Sums3()
    ensures Add(Add(Add(SmallSigma1(0x12dcbfdb), 0x000f0000), SmallSigma0(0x00000000)), 0x00000000) == 0xc8215c1a
    ensures Add(Add(Add(SmallSigma1(0xe2e2c38e), 0x7da86405), SmallSigma0(0x00000000)), 0x00000000) == 0xb73679a2
    ensures Add(Add(Add(SmallSigma1(0xc8215c1a), 0x600003c6), SmallSigma0(0x00000000)), 0x00000000) == 0xe5bc3909
    ensures Add(Add(Add(SmallSigma1(0xb73679a2), 0x3e9d7b78), SmallSigma0(0x00000000)), 0x00000000) == 0x32663c5b
    ensures Add(Add(Add(SmallSigma1(0xe5bc3909), 0x0183fc00), SmallSigma0(0x00000000)), 0x00000000) == 0x9d209d67
    ensures Add(Add(Add(SmallSigma1(0x32663c5b), 0x12dcbfdb), SmallSigma0(0x00000000)), 0x00000000) == 0xec8726cb
    ensures Add(Add(Add(SmallSigma1(0x9d209d67), 0xe2e2c38e), SmallSigma0(0x00000018)), 0x00000000) == 0x702138a4
    ensures Add(Add(Add(SmallSigma1(0xec8726cb), 0xc8215c1a), SmallSigma0(0x61626380)), 0x00000018) == 0xd3b7973b
  {}

  lemma NextPart3(w: seq<Word>)
    requires Scheduled(w) && |w| == 64 && Part1(w) && Part2(w)
    ensures Part3(w)
  {
    hide Scheduled, Add, SmallSigma0, SmallSigma1;
    Sums3();
    Later(w, 24);
    Later(w, 25);
    Later(w, 26);
    Later(w, 27);
    Later(w, 28);
    Later(w, 29);
    Later(w, 30);
    Later(w, 31);
  }

  lemma Sums4()
    ensures Add(Add(Add(SmallSigma1(0x702138a4), 0xb73679a2), SmallSigma0(0x000f0000)), 0x61626380) == 0x93f5997f
    ensures Add(Add(Add(SmallSigma1(0xd3b7973b), 0xe5bc3909), SmallSigma0(0x7da86405)), 0x000f0000) == 0x3b68ba73
    ensures Add(Add(Add(SmallSigma1(0x93f5997f), 0x32663c5b), SmallSigma0(0x600003c6)), 0x7da86405) == 0xaff4ffc1
    ensures Add(Add(Add(SmallSigma1(0x3b68ba73), 0x9d209d67), SmallSigma0(0x3e9d7b78)), 0x600003c6) == 0xf10a5c62
    ensures Add(Add(Add(SmallSigma1(0xaff4ffc1), 0xec8726cb), SmallSigma0(0x0183fc00)), 0x3e9d7b78) == 0x0a8b3996
    ensures Add(Add(Add(SmallSigma1(0xf10a5c62), 0x702138a4), SmallSigma0(0x12dcbfdb)), 0x0183fc00) == 0x72af830a
    ensures Add(Add(Add(SmallSigma1(0x0a8b3996), 0xd3b7973b), SmallSigma0(0xe2e2c38e)), 0x12dcbfdb) == 0x9409e33e
    ensures Add(Add(Add(SmallSigma1(0x72af830a), 0x93f5997f), SmallSigma0(0xc8215c1a)), 0xe2e2c38e) == 0x24641522
  {}

  lemma NextPart4(w: seq<Word>)
    requires Scheduled(w) && |w| == 64 && Part2(w) && Part3(w)
    ensures Part4(w)
  {
    hide Scheduled, Add, SmallSigma0, SmallSigma1;
    Sums4();
    Later(w, 32);
    Later(w, 33);
    Later(w, 34);
    Later(w, 35);
    Later(w, 36);
    Later(w, 37);
    Later(w, 38);
    Later(w, 39);
  }

  lemma Sums5()
    ensures Add(Add(Add(SmallSigma1(0x9409e33e), 0x3b68ba73), SmallSigma0(0xb73679a2)), 0xc8215c1a) == 0x9f47bf94
    ensures Add(Add(Add(SmallSigma1(0x24641522), 0xaff4ffc1), SmallSigma0(0xe5bc3909)), 0xb73679a2) == 0xf0a64f5a
    ensures Add(Add(Add(SmallSigma1(0x9f47bf94), 0xf10a5c62), SmallSigma0(0x32663c5b)), 0xe5bc3909) == 0x3e246a79
    ensures Add(Add(Add(SmallSigma1(0xf0a64f5a), 0x0a8b3996), SmallSigma0(0x9d209d67)), 0x32663c5b) == 0x27333ba3
    ensures Add(Add(Add(SmallSigma1(0x3e246a79), 0x72af830a), SmallSigma0(0xec8726cb)), 0x9d209d67) == 0x0c4763f2
    ensures Add(Add(Add(SmallSigma1(0x27333ba3), 0x9409e33e), SmallSigma0(0x702138a4)), 0xec8726cb) == 0x840abf27
    ensures Add(Add(Add(SmallSigma1(0x0c4763f2), 0x24641522), SmallSigma0(0xd3b7973b)), 0x702138a4) == 0x7a290d5d
    ensures Add(Add(Add(SmallSigma1(0x840abf27), 0x9f47bf94), SmallSigma0(0x93f5997f)), 0xd3b7973b) == 0x065c43da
  {}

  lemma NextPart5(w: seq<Word>)
    requires Scheduled(w) && |w| == 64 && Part3(w) && Part4(w)
    ensures Part5(w)
  {
    hide Scheduled, Add, SmallSigma0, SmallSigma1;
    Sums5();
    Later(w, 40);
    Later(w, 41);
    Later(w, 42);
    Later(w, 43);
    Later(w, 44);
    Later(w, 45);
    Later(w, 46);
    Later(w, 47);
  }

  lemma Sums6()
    ensures Add(Add(Add(SmallSigma1(0x7a290d5d), 0xf0a64f5a), SmallSigma0(0x3b68ba73)), 0x93f5997f) == 0xfb3e89cb
    ensures Add(Add(Add(SmallSigma1(0x065c43da), 0x3e246a79), SmallSigma0(0xaff4ffc1)), 0x3b68ba73) == 0xcc7617db
    ensures Add(Add(Add(SmallSigma1(0xfb3e89cb), 0x27333ba3), SmallSigma0(0xf10a5c62)), 0xaff4ffc1) == 0xb9e66c34
    ensures Add(Add(Add(SmallSigma1(0xcc7617db), 0x0c4763f2), SmallSigma0(0x0a8b3996)), 0xf10a5c62) == 0xa9993667
    ensures Add(Add(Add(SmallSigma1(0xb9e66c34), 0x840abf27), SmallSigma0(0x72af830a)), 0x0a8b3996) == 0x84badedd
    ensures Add(Add(Add(SmallSigma1(0xa9993667), 0x7a290d5d), SmallSigma0(0x9409e33e)), 0x72af830a) == 0xc21462bc
    ensures Add(Add(Add(SmallSigma1(0x84badedd), 0x065c43da), SmallSigma0(0x24641522)), 0x9409e33e) == 0x1487472c
    ensures Add(Add(Add(SmallSigma1(0xc21462bc), 0xfb3e89cb), SmallSigma0(0x9f47bf94)), 0x24641522) == 0xb20f7a99
  {}

  lemma NextPart6(w: seq<Word>)
    requires Scheduled(w) && |w| == 64 && Part4(w) && Part5(w)
    ensures Part6(w)
  {
    hide Scheduled, Add, SmallSigma0, SmallSigma1;
    Sums6();
    Later(w, 48);
    Later(w, 49);
    Later(w, 50);
    Later(w, 51);
    Later(w, 52);
    Later(w, 53);
    Later(w, 54);
    Later(w, 55);
  }

  lemma Sums7()
    ensures Add(Add(Add(SmallSigma1(0x1487472c), 0xcc7617db), SmallSigma0(0xf0a64f5a)), 0x9f47bf94) == 0xef57b9cd
    ensures Add(Add(Add(SmallSigma1(0xb20f7a99), 0xb9e66c34), SmallSigma0(0x3e246a79)), 0xf0a64f5a) == 0xebe6b238
    ensures Add(Add(Add(SmallSigma1(0xef57b9cd), 0xa9993667), SmallSigma0(0x27333ba3)), 0x3e246a79) == 0x9fe3095e
    ensures Add(Add(Add(SmallSigma1(0xebe6b238), 0x84badedd), SmallSigma0(0x0c4763f2)), 0x27333ba3) == 0x78bc8d4b
    ensures Add(Add(Add(SmallSigma1(0x9fe3095e), 0xc21462bc), SmallSigma0(0x840abf27)), 0x0c4763f2) == 0xa43fcf15
    ensures Add(Add(Add(SmallSigma1(0x78bc8d4b), 0x1487472c), SmallSigma0(0x7a290d5d)), 0x840abf27) == 0x668b2ff8
    ensures Add(Add(Add(SmallSigma1(0xa43fcf15), 0xb20f7a99), SmallSigma0(0x065c43da)), 0x7a290d5d) == 0xeeaba2cc
    ensures Add(Add(Add(SmallSigma1(0x668b2ff8), 0xef57b9cd), SmallSigma0(0xfb3e89cb)), 0x065c43da) == 0x12b1edeb
  {}

  lemma NextPart7(w: seq<Word>)
    requires Scheduled(w) && |w| == 64 && Part5(w) && Part6(w)
    ensures Part7(w)
  {
    hide Scheduled, Add, SmallSigma0, SmallSigma1;
    Sums7();
    Later(w, 56);
    Later(w, 57);
    Later(w, 58);
    Later(w, 59);
    Later(w, 60);
    Later(w, 61);
    Later(w, 62);
    Later(w, 63);
  }

  // The rounds.

  lemma Steps0()
    ensures Round(Words(0x6a09e667, 0xbb67ae85, 0x3c6ef372, 0xa54ff53a, 0x510e527f, 0x9b05688c, 0x1f83d9ab, 0x5be0cd19),
                  Add(0x428a2f98, 0x61626380))
         == Words(0x5d6aebcd, 0x6a09e667, 0xbb67ae85, 0x3c6ef372, 0xfa2a4622, 0x510e527f, 0x9b05688c, 0x1f83d9ab)
    ensures Round(Words(0x5d6aebcd, 0x6a09e667, 0xbb67ae85, 0x3c6ef372, 0xfa2a4622, 0x510e527f, 0x9b05688c, 0x1f83d9ab),
                  Add(0x71374491, 0x00000000))
         == Words(0x5a6ad9ad, 0x5d6aebcd, 0x6a09e667, 0xbb67ae85, 0x78ce7989, 0xfa2a4622, 0x510e527f, 0x9b05688c)
    ensures Round(Words(0x5a6ad9ad, 0x5d6aebcd, 0x6a09e667, 0xbb67ae85, 0x78ce7989, 0xfa2a4622, 0x510e527f, 0x9b05688c),
                  Add(0xb5c0fbcf, 0x00000000))
         == Words(0xc8c347a7, 0x5a6ad9ad, 0x5d6aebcd, 0x6a09e667, 0xf92939eb, 0x78ce7989, 0xfa2a4622, 0x510e527f)
    ensures Round(Words(0xc8c347a7, 0x5a6ad9ad, 0x5d6aebcd, 0x6a09e667, 0xf92939eb, 0x78ce7989, 0xfa2a4622, 0x510e527f),
                  Add(0xe9b5dba5, 0x00000000))
         == Words(0xd550f666, 0xc8c347a7, 0x5a6ad9ad, 0x5d6aebcd, 0x24e00850, 0xf92939eb, 0x78ce7989, 0xfa2a4622)
  {}

  lemma Steps1()
    ensures Round(Words(0xd550f666, 0xc8c347a7, 0x5a6ad9ad, 0x5d6aebcd, 0x24e00850, 0xf92939eb, 0x78ce7989, 0xfa2a4622),
                  Add(0x3956c25b, 0x00000000))
         == Words(0x04409a6a, 0xd550f666, 0xc8c347a7, 0x5a6ad9ad, 0x43ada245, 0x24e00850, 0xf92939eb, 0x78ce7989)
    ensures Round(Words(0x04409a6a, 0xd550f666, 0xc8c347a7, 0x5a6ad9ad, 0x43ada245, 0x24e00850, 0xf92939eb, 0x78ce7989),
                  Add(0x59f111f1, 0x00000000))
         == Words(0x2b4209f5, 0x04409a6a, 0xd550f666, 0xc8c347a7, 0x714260ad, 0x43ada245, 0x24e00850, 0xf92939eb)
    ensures Round(Words(0x2b4209f5, 0x04409a6a, 0xd550f666, 0xc8c347a7, 0x714260ad, 0x43ada245, 0x24e00850, 0xf92939eb),
                  Add(0x923f82a4, 0x00000000))
         == Words(0xe5030380, 0x2b4209f5, 0x04409a6a, 0xd550f666, 0x9b27a401, 0x714260ad, 0x43ada245, 0x24e00850)
    ensures Round(Words(0xe5030380, 0x2b4209f5, 0x04409a6a, 0xd550f666, 0x9b27a401, 0x714260ad, 0x43ada245, 0x24e00850),
                  Add(0xab1c5ed5, 0x00000000))
         == Words(0x85a07b5f, 0xe5030380, 0x2b4209f5, 0x04409a6a, 0x0c657a79, 0x9b27a401, 0x714260ad, 0x43ada245)
  {}

  lemma Steps2()
    ensures Round(Words(0x85a07b5f, 0xe5030380, 0x2b4209f5, 0x04409a6a, 0x0c657a79, 0x9b27a401, 0x714260ad, 0x43ada245),
                  Add(0xd807aa98, 0x00000000))
         == Words(0x8e04ecb9, 0x85a07b5f, 0xe5030380, 0x2b4209f5, 0x32ca2d8c, 0x0c657a79, 0x9b27a401, 0x714260ad)
    ensures Round(Words(0x8e04ecb9, 0x85a07b5f, 0xe5030380, 0x2b4209f5, 0x32ca2d8c, 0x0c657a79, 0x9b27a401, 0x714260ad),
                  Add(0x12835b01, 0x00000000))
         == Words(0x8c87346b, 0x8e04ecb9, 0x85a07b5f, 0xe5030380, 0x1cc92596, 0x32ca2d8c, 0x0c657a79, 0x9b27a401)
    ensures Round(Words(0x8c87346b, 0x8e04ecb9, 0x85a07b5f, 0xe5030380, 0x1cc92596, 0x32ca2d8c, 0x0c657a79, 0x9b27a401),
                  Add(0x243185be, 0x00000000))
         == Words(0x4798a3f4, 0x8c87346b, 0x8e04ecb9, 0x85a07b5f, 0x436b23e8, 0x1cc92596, 0x32ca2d8c, 0x0c657a79)
    ensures Round(Words(0x4798a3f4, 0x8c87346b, 0x8e04ecb9, 0x85a07b5f, 0x436b23e8, 0x1cc92596, 0x32ca2d8c, 0x0c657a79),
                  Add(0x550c7dc3, 0x00000000))
         == Words(0xf71fc5a9, 0x4798a3f4, 0x8c87346b, 0x8e04ecb9, 0x816fd6e9, 0x436b23e8, 0x1cc92596, 0x32ca2d8c)
  {}

  lemma Steps3()
    ensures Round(Words(0xf71fc5a9, 0x4798a3f4, 0x8c87346b, 0x8e04ecb9, 0x816fd6e9, 0x436b23e8, 0x1cc92596, 0x32ca2d8c),
                  Add(0x72be5d74, 0x00000000))
         == Words(0x87912990, 0xf71fc5a9, 0x4798a3f4, 0x8c87346b, 0x1e578218, 0x816fd6e9, 0x436b23e8, 0x1cc92596)
    ensures Round(Words(0x87912990, 0xf71fc5a9, 0x4798a3f4, 0x8c87346b, 0x1e578218, 0x816fd6e9, 0x436b23e8, 0x1cc92596),
                  Add(0x80deb1fe, 0x00000000))
         == Words(0xd932eb16, 0x87912990, 0xf71fc5a9, 0x4798a3f4, 0x745a48de, 0x1e578218, 0x816fd6e9, 0x436b23e8)
    ensures Round(Words(0xd932eb16, 0x87912990, 0xf71fc5a9, 0x4798a3f4, 0x745a48de, 0x1e578218, 0x816fd6e9, 0x436b23e8),
                  Add(0x9bdc06a7, 0x00000000))
         == Words(0xc0645fde, 0xd932eb16, 0x87912990, 0xf71fc5a9, 0x0b92f20c, 0x745a48de, 0x1e578218, 0x816fd6e9)
    ensures Round(Words(0xc0645fde, 0xd932eb16, 0x87912990, 0xf71fc5a9, 0x0b92f20c, 0x745a48de, 0x1e578218, 0x816fd6e9),
                  Add(0xc19bf174, 0x00000018))
         == Words(0xb0fa238e, 0xc0645fde, 0xd932eb16, 0x87912990, 0x07590dcd, 0x0b92f20c, 0x745a48de, 0x1e578218)
  {}

  lemma Steps4()
    ensures Round(Words(0xb0fa238e, 0xc0645fde, 0xd932eb16, 0x87912990, 0x07590dcd, 0x0b92f20c, 0x745a48de, 0x1e578218),
                  Add(0xe49b69c1, 0x61626380))
         == Words(0x21da9a9b, 0xb0fa238e, 0xc0645fde, 0xd932eb16, 0x8034229c, 0x07590dcd, 0x0b92f20c, 0x745a48de)
    ensures Round(Words(0x21da9a9b, 0xb0fa238e, 0xc0645fde, 0xd932eb16, 0x8034229c, 0x07590dcd, 0x0b92f20c, 0x745a48de),
                  Add(0xefbe4786, 0x000f0000))
         == Words(0xc2fbd9d1, 0x21da9a9b, 0xb0fa238e, 0xc0645fde, 0x846ee454, 0x8034229c, 0x07590dcd, 0x0b92f20c)
    ensures Round(Words(0xc2fbd9d1, 0x21da9a9b, 0xb0fa238e, 0xc0645fde, 0x846ee454, 0x8034229c, 0x07590dcd, 0x0b92f20c),
                  Add(0x0fc19dc6, 0x7da86405))
         == Words(0xfe777bbf, 0xc2fbd9d1, 0x21da9a9b, 0xb0fa238e, 0xcc899961, 0x846ee454, 0x8034229c, 0x07590dcd)
    ensures Round(Words(0xfe777bbf, 0xc2fbd9d1, 0x21da9a9b, 0xb0fa238e, 0xcc899961, 0x846ee454, 0x8034229c, 0x07590dcd),
                  Add(0x240ca1cc, 0x600003c6))
         == Words(0xe1f20c33, 0xfe777bbf, 0xc2fbd9d1, 0x21da9a9b, 0xb0638179, 0xcc899961, 0x846ee454, 0x8034229c)
  {}

  lemma Steps5()
    ensures Round(Words(0xe1f20c33, 0xfe777bbf, 0xc2fbd9d1, 0x21da9a9b, 0xb0638179, 0xcc899961, 0x846ee454, 0x8034229c),
                  Add(0x2de92c6f, 0x3e9d7b78))
         == Words(0x9dc68b63, 0xe1f20c33, 0xfe777bbf, 0xc2fbd9d1, 0x8ada8930, 0xb0638179, 0xcc899961, 0x846ee454)
    ensures Round(Words(0x9dc68b63, 0xe1f20c33, 0xfe777bbf, 0xc2fbd9d1, 0x8ada8930, 0xb0638179, 0xcc899961, 0x846ee454),
                  Add(0x4a7484aa, 0x0183fc00))
         == Words(0xc2606d6d, 0x9dc68b63, 0xe1f20c33, 0xfe777bbf, 0xe1257970, 0x8ada8930, 0xb0638179, 0xcc899961)
    ensures Round(Words(0xc2606d6d, 0x9dc68b63, 0xe1f20c33, 0xfe777bbf, 0xe1257970, 0x8ada8930, 0xb0638179, 0xcc899961),
                  Add(0x5cb0a9dc, 0x12dcbfdb))
         == Words(0xa7a3623f, 0xc2606d6d, 0x9dc68b63, 0xe1f20c33, 0x49f5114a, 0xe1257970, 0x8ada8930, 0xb0638179)
    ensures Round(Words(0xa7a3623f, 0xc2606d6d, 0x9dc68b63, 0xe1f20c33, 0x49f5114a, 0xe1257970, 0x8ada8930, 0xb0638179),
                  Add(0x76f988da, 0xe2e2c38e))
         == Words(0xc5d53d8d, 0xa7a3623f, 0xc2606d6d, 0x9dc68b63, 0xaa47c347, 0x49f5114a, 0xe1257970, 0x8ada8930)
  {}

  lemma Steps6()
    ensures Round(Words(0xc5d53d8d, 0xa7a3623f, 0xc2606d6d, 0x9dc68b63, 0xaa47c347, 0x49f5114a, 0xe1257970, 0x8ada8930),
                  Add(0x983e5152, 0xc8215c1a))
         == Words(0x1c2c2838, 0xc5d53d8d, 0xa7a3623f, 0xc2606d6d, 0x2823ef91, 0xaa47c347, 0x49f5114a, 0xe1257970)
    ensures Round(Words(0x1c2c2838, 0xc5d53d8d, 0xa7a3623f, 0xc2606d6d, 0x2823ef91, 0xaa47c347, 0x49f5114a, 0xe1257970),
                  Add(0xa831c66d, 0xb73679a2))
         == Words(0xcde8037d, 0x1c2c2838, 0xc5d53d8d, 0xa7a3623f, 0x14383d8e, 0x2823ef91, 0xaa47c347, 0x49f5114a)
    ensures Round(Words(0xcde8037d, 0x1c2c2838, 0xc5d53d8d, 0xa7a3623f, 0x14383d8e, 0x2823ef91, 0xaa47c347, 0x49f5114a),
                  Add(0xb00327c8, 0xe5bc3909))
         == Words(0xb62ec4bc, 0xcde8037d, 0x1c2c2838, 0xc5d53d8d, 0xc74c6516, 0x14383d8e, 0x2823ef91, 0xaa47c347)
    ensures Round(Words(0xb62ec4bc, 0xcde8037d, 0x1c2c2838, 0xc5d53d8d, 0xc74c6516, 0x14383d8e, 0x2823ef91, 0xaa47c347),
                  Add(0xbf597fc7, 0x32663c5b))
         == Words(0x77d37528, 0xb62ec4bc, 0xcde8037d, 0x1c2c2838, 0xedffbff8, 0xc74c6516, 0x14383d8e, 0x2823ef91)
  {}

  lemma Steps7()
    ensures Round(Words(0x77d37528, 0xb62ec4bc, 0xcde8037d, 0x1c2c2838, 0xedffbff8, 0xc74c6516, 0x14383d8e, 0x2823ef91),
                  Add(0xc6e00bf3, 0x9d209d67))
         == Words(0x363482c9, 0x77d37528, 0xb62ec4bc, 0xcde8037d, 0x6112a3b7, 0xedffbff8, 0xc74c6516, 0x14383d8e)
    ensures Round(Words(0x363482c9, 0x77d37528, 0xb62ec4bc, 0xcde8037d, 0x6112a3b7, 0xedffbff8, 0xc74c6516, 0x14383d8e),
                  Add(0xd5a79147, 0xec8726cb))
         == Words(0xa0060b30, 0x363482c9, 0x77d37528, 0xb62ec4bc, 0xade79437, 0x6112a3b7, 0xedffbff8, 0xc74c6516)
    ensures Round(Words(0xa0060b30, 0x363482c9, 0x77d37528, 0xb62ec4bc, 0xade79437, 0x6112a3b7, 0xedffbff8, 0xc74c6516),
                  Add(0x06ca6351, 0x702138a4))
         == Words(0xea992a22, 0xa0060b30, 0x363482c9, 0x77d37528, 0x0109ab3a, 0xade79437, 0x6112a3b7, 0xedffbff8)
    ensures Round(Words(0xea992a22, 0xa0060b30, 0x363482c9, 0x77d37528, 0x0109ab3a, 0xade79437, 0x6112a3b7, 0xedffbff8),
                  Add(0x14292967, 0xd3b7973b))
         == Words(0x73b33bf5, 0xea992a22, 0xa0060b30, 0x363482c9, 0xba591112, 0x0109ab3a, 0xade79437, 0x6112a3b7)
  {}

  lemma Steps8()
    ensures Round(Words(0x73b33bf5, 0xea992a22, 0xa0060b30, 0x363482c9, 0xba591112, 0x0109ab3a, 0xade79437, 0x6112a3b7),
                  Add(0x27b70a85, 0x93f5997f))
         == Words(0x98e12507, 0x73b33bf5, 0xea992a22, 0xa0060b30, 0x9cd9f5f6, 0xba591112, 0x0109ab3a, 0xade79437)
    ensures Round(Words(0x98e12507, 0x73b33bf5, 0xea992a22, 0xa0060b30, 0x9cd9f5f6, 0xba591112, 0x0109ab3a, 0xade79437),
                  Add(0x2e1b2138, 0x3b68ba73))
         == Words(0xfe604df5, 0x98e12507, 0x73b33bf5, 0xea992a22, 0x59249dd3, 0x9cd9f5f6, 0xba591112, 0x0109ab3a)
    ensures Round(Words(0xfe604df5, 0x98e12507, 0x73b33bf5, 0xea992a22, 0x59249dd3, 0x9cd9f5f6, 0xba591112, 0x0109ab3a),
                  Add(0x4d2c6dfc, 0xaff4ffc1))
         == Words(0xa9a7738c, 0xfe604df5, 0x98e12507, 0x73b33bf5, 0x085f3833, 0x59249dd3, 0x9cd9f5f6, 0xba591112)
    ensures Round(Words(0xa9a7738c, 0xfe604df5, 0x98e12507, 0x73b33bf5, 0x085f3833, 0x59249dd3, 0x9cd9f5f6, 0xba591112),
                  Add(0x53380d13, 0xf10a5c62))
         == Words(0x65a0cfe4, 0xa9a7738c, 0xfe604df5, 0x98e12507, 0xf4b002d6, 0x085f3833, 0x59249dd3, 0x9cd9f5f6)
  {}

  lemma Steps9()
    ensures Round(Words(0x65a0cfe4, 0xa9a7738c, 0xfe604df5, 0x98e12507, 0xf4b002d6, 0x085f3833, 0x59249dd3, 0x9cd9f5f6),
                  Add(0x650a7354, 0x0a8b3996))
         == Words(0x41a65cb1, 0x65a0cfe4, 0xa9a7738c, 0xfe604df5, 0x0772a26b, 0xf4b002d6, 0x085f3833, 0x59249dd3)
    ensures Round(Words(0x41a65cb1, 0x65a0cfe4, 0xa9a7738c, 0xfe604df5, 0x0772a26b, 0xf4b002d6, 0x085f3833, 0x59249dd3),
                  Add(0x766a0abb, 0x72af830a))
         == Words(0x34df1604, 0x41a65cb1, 0x65a0cfe4, 0xa9a7738c, 0xa507a53d, 0x0772a26b, 0xf4b002d6, 0x085f3833)
    ensures Round(Words(0x34df1604, 0x41a65cb1, 0x65a0cfe4, 0xa9a7738c, 0xa507a53d, 0x0772a26b, 0xf4b002d6, 0x085f3833),
                  Add(0x81c2c92e, 0x9409e33e))
         == Words(0x6dc57a8a, 0x34df1604, 0x41a65cb1, 0x65a0cfe4, 0xf0781bc8, 0xa507a53d, 0x0772a26b, 0xf4b002d6)
    ensures Round(Words(0x6dc57a8a, 0x34df1604, 0x41a65cb1, 0x65a0cfe4, 0xf0781bc8, 0xa507a53d, 0x0772a26b, 0xf4b002d6),
                  Add(0x92722c85, 0x24641522))
         == Words(0x79ea687a, 0x6dc57a8a, 0x34df1604, 0x41a65cb1, 0x1efbc0a0, 0xf0781bc8, 0xa507a53d, 0x0772a26b)
  {}

  lemma Steps10()
    ensures Round(Words(0x79ea687a, 0x6dc57a8a, 0x34df1604, 0x41a65cb1, 0x1efbc0a0, 0xf0781bc8, 0xa507a53d, 0x0772a26b),
                  Add(0xa2bfe8a1, 0x9f47bf94))
         == Words(0xd6670766, 0x79ea687a, 0x6dc57a8a, 0x34df1604, 0x26352d63, 0x1efbc0a0, 0xf0781bc8, 0xa507a53d)
    ensures Round(Words(0xd6670766, 0x79ea687a, 0x6dc57a8a, 0x34df1604, 0x26352d63, 0x1efbc0a0, 0xf0781bc8, 0xa507a53d),
                  Add(0xa81a664b, 0xf0a64f5a))
         == Words(0xdf46652f, 0xd6670766, 0x79ea687a, 0x6dc57a8a, 0x838b2711, 0x26352d63, 0x1efbc0a0, 0xf0781bc8)
    ensures Round(Words(0xdf46652f, 0xd6670766, 0x79ea687a, 0x6dc57a8a, 0x838b2711, 0x26352d63, 0x1efbc0a0, 0xf0781bc8),
                  Add(0xc24b8b70, 0x3e246a79))
         == Words(0x17aa0dfe, 0xdf46652f, 0xd6670766, 0x79ea687a, 0xdecd4715, 0x838b2711, 0x26352d63, 0x1efbc0a0)
    ensures Round(Words(0x17aa0dfe, 0xdf46652f, 0xd6670766, 0x79ea687a, 0xdecd4715, 0x838b2711, 0x26352d63, 0x1efbc0a0),
                  Add(0xc76c51a3, 0x27333ba3))
         == Words(0x9d4baf93, 0x17aa0dfe, 0xdf46652f, 0xd6670766, 0xfda24c2e, 0xdecd4715, 0x838b2711, 0x26352d63)
  {}

  lemma Steps11()
    ensures Round(Words(0x9d4baf93, 0x17aa0dfe, 0xdf46652f, 0xd6670766, 0xfda24c2e, 0xdecd4715, 0x838b2711, 0x26352d63),
                  Add(0xd192e819, 0x0c4763f2))
         == Words(0x26628815, 0x9d4baf93, 0x17aa0dfe, 0xdf46652f, 0xa80f11f0, 0xfda24c2e, 0xdecd4715, 0x838b2711)
    ensures Round(Words(0x26628815, 0x9d4baf93, 0x17aa0dfe, 0xdf46652f, 0xa80f11f0, 0xfda24c2e, 0xdecd4715, 0x838b2711),
                  Add(0xd6990624, 0x840abf27))
         == Words(0x72ab4b91, 0x26628815, 0x9d4baf93, 0x17aa0dfe, 0xb7755da1, 0xa80f11f0, 0xfda24c2e, 0xdecd4715)
    ensures Round(Words(0x72ab4b91, 0x26628815, 0x9d4baf93, 0x17aa0dfe, 0xb7755da1, 0xa80f11f0, 0xfda24c2e, 0xdecd4715),
                  Add(0xf40e3585, 0x7a290d5d))
         == Words(0xa14c14b0, 0x72ab4b91, 0x26628815, 0x9d4baf93, 0xd57b94a9, 0xb7755da1, 0xa80f11f0, 0xfda24c2e)
    ensures Round(Words(0xa14c14b0, 0x72ab4b91, 0x26628815, 0x9d4baf93, 0xd57b94a9, 0xb7755da1, 0xa80f11f0, 0xfda24c2e),
                  Add(0x106aa070, 0x065c43da))
         == Words(0x4172328d, 0xa14c14b0, 0x72ab4b91, 0x26628815, 0xfecf0bc6, 0xd57b94a9, 0xb7755da1, 0xa80f11f0)
  {}

  lemma Steps12()
    ensures Round(Words(0x4172328d, 0xa14c14b0, 0x72ab4b91, 0x26628815, 0xfecf0bc6, 0xd57b94a9, 0xb7755da1, 0xa80f11f0),
                  Add(0x19a4c116, 0xfb3e89cb))
         == Words(0x05757ceb, 0x4172328d, 0xa14c14b0, 0x72ab4b91, 0xbd714038, 0xfecf0bc6, 0xd57b94a9, 0xb7755da1)
    ensures Round(Words(0x05757ceb, 0x4172328d, 0xa14c14b0, 0x72ab4b91, 0xbd714038, 0xfecf0bc6, 0xd57b94a9, 0xb7755da1),
                  Add(0x1e376c08, 0xcc7617db))
         == Words(0xf11bfaa8, 0x05757ceb, 0x4172328d, 0xa14c14b0, 0x6e5c390c, 0xbd714038, 0xfecf0bc6, 0xd57b94a9)
    ensures Round(Words(0xf11bfaa8, 0x05757ceb, 0x4172328d, 0xa14c14b0, 0x6e5c390c, 0xbd714038, 0xfecf0bc6, 0xd57b94a9),
                  Add(0x2748774c, 0xb9e66c34))
         == Words(0x7a0508a1, 0xf11bfaa8, 0x05757ceb, 0x4172328d, 0x52f1ccf7, 0x6e5c390c, 0xbd714038, 0xfecf0bc6)
    ensures Round(Words(0x7a0508a1, 0xf11bfaa8, 0x05757ceb, 0x4172328d, 0x52f1ccf7, 0x6e5c390c, 0xbd714038, 0xfecf0bc6),
                  Add(0x34b0bcb5, 0xa9993667))
         == Words(0x886e7a22, 0x7a0508a1, 0xf11bfaa8, 0x05757ceb, 0x49231c1e, 0x52f1ccf7, 0x6e5c390c, 0xbd714038)
  {}

  lemma Steps13()
    ensures Round(Words(0x886e7a22, 0x7a0508a1, 0xf11bfaa8, 0x05757ceb, 0x49231c1e, 0x52f1ccf7, 0x6e5c390c, 0xbd714038),
                  Add(0x391c0cb3, 0x84badedd))
         == Words(0x101fd28f, 0x886e7a22, 0x7a0508a1, 0xf11bfaa8, 0x529e7d00, 0x49231c1e, 0x52f1ccf7, 0x6e5c390c)
    ensures Round(Words(0x101fd28f, 0x886e7a22, 0x7a0508a1, 0xf11bfaa8, 0x529e7d00, 0x49231c1e, 0x52f1ccf7, 0x6e5c390c),
                  Add(0x4ed8aa4a, 0xc21462bc))
         == Words(0xf5702fdb, 0x101fd28f, 0x886e7a22, 0x7a0508a1, 0x9f4787c3, 0x529e7d00, 0x49231c1e, 0x52f1ccf7)
    ensures Round(Words(0xf5702fdb, 0x101fd28f, 0x886e7a22, 0x7a0508a1, 0x9f4787c3, 0x529e7d00, 0x49231c1e, 0x52f1ccf7),
                  Add(0x5b9cca4f, 0x1487472c))
         == Words(0x3ec45cdb, 0xf5702fdb, 0x101fd28f, 0x886e7a22, 0xe50e1b4f, 0x9f4787c3, 0x529e7d00, 0x49231c1e)
    ensures Round(Words(0x3ec45cdb, 0xf5702fdb, 0x101fd28f, 0x886e7a22, 0xe50e1b4f, 0x9f4787c3, 0x529e7d00, 0x49231c1e),
                  Add(0x682e6ff3, 0xb20f7a99))
         == Words(0x38cc9913, 0x3ec45cdb, 0xf5702fdb, 0x101fd28f, 0x54cb266b, 0xe50e1b4f, 0x9f4787c3, 0x529e7d00)
  {}

  lemma Steps14()
    ensures Round(Words(0x38cc9913, 0x3ec45cdb, 0xf5702fdb, 0x101fd28f, 0x54cb266b, 0xe50e1b4f, 0x9f4787c3, 0x529e7d00),
                  Add(0x748f82ee, 0xef57b9cd))
         == Words(0xfcd1887b, 0x38cc9913, 0x3ec45cdb, 0xf5702fdb, 0x9b5e906c, 0x54cb266b, 0xe50e1b4f, 0x9f4787c3)
    ensures Round(Words(0xfcd1887b, 0x38cc9913, 0x3ec45cdb, 0xf5702fdb, 0x9b5e906c, 0x54cb266b, 0xe50e1b4f, 0x9f4787c3),
                  Add(0x78a5636f, 0xebe6b238))
         == Words(0xc062d46f, 0xfcd1887b, 0x38cc9913, 0x3ec45cdb, 0x7e44008e, 0x9b5e906c, 0x54cb266b, 0xe50e1b4f)
    ensures Round(Words(0xc062d46f, 0xfcd1887b, 0x38cc9913, 0x3ec45cdb, 0x7e44008e, 0x9b5e906c, 0x54cb266b, 0xe50e1b4f),
                  Add(0x84c87814, 0x9fe3095e))
         == Words(0xffb70472, 0xc062d46f, 0xfcd1887b, 0x38cc9913, 0x6d83bfc6, 0x7e44008e, 0x9b5e906c, 0x54cb266b)
    ensures Round(Words(0xffb70472, 0xc062d46f, 0xfcd1887b, 0x38cc9913, 0x6d83bfc6, 0x7e44008e, 0x9b5e906c, 0x54cb266b),
                  Add(0x8cc70208, 0x78bc8d4b))
         == Words(0xb6ae8fff, 0xffb70472, 0xc062d46f, 0xfcd1887b, 0xb21bad3d, 0x6d83bfc6, 0x7e44008e, 0x9b5e906c)
  {}

  lemma Steps15()
    ensures Round(Words(0xb6ae8fff, 0xffb70472, 0xc062d46f, 0xfcd1887b, 0xb21bad3d, 0x6d83bfc6, 0x7e44008e, 0x9b5e906c),
                  Add(0x90befffa, 0xa43fcf15))
         == Words(0xb85e2ce9, 0xb6ae8fff, 0xffb70472, 0xc062d46f, 0x961f4894, 0xb21bad3d, 0x6d83bfc6, 0x7e44008e)
    ensures Round(Words(0xb85e2ce9, 0xb6ae8fff, 0xffb70472, 0xc062d46f, 0x961f4894, 0xb21bad3d, 0x6d83bfc6, 0x7e44008e),
                  Add(0xa4506ceb, 0x668b2ff8))
         == Words(0x04d24d6c, 0xb85e2ce9, 0xb6ae8fff, 0xffb70472, 0x948d25b6, 0x961f4894, 0xb21bad3d, 0x6d83bfc6)
    ensures Round(Words(0x04d24d6c, 0xb85e2ce9, 0xb6ae8fff, 0xffb70472, 0x948d25b6, 0x961f4894, 0xb21bad3d, 0x6d83bfc6),
                  Add(0xbef9a3f7, 0xeeaba2cc))
         == Words(0xd39a2165, 0x04d24d6c, 0xb85e2ce9, 0xb6ae8fff, 0xfb121210, 0x948d25b6, 0x961f4894, 0xb21bad3d)
    ensures Round(Words(0xd39a2165, 0x04d24d6c, 0xb85e2ce9, 0xb6ae8fff, 0xfb121210, 0x948d25b6, 0x961f4894, 0xb21bad3d),
                  Add(0xc67178f2, 0x12b1edeb))
         == Words(0x506e3058, 0xd39a2165, 0x04d24d6c, 0xb85e2ce9, 0x5ef50f24, 0xfb121210, 0x948d25b6, 0x961f4894)
  {}

  ghost predicate Inputs(kws: seq<Word>, w: seq<Word>) {
    |kws| == |w| == 64 && forall t :: 0 <= t < 64 ==> kws[t] == Add(RoundConstant(t), w[t])
  }

  lemma InputLengths(kws: seq<Word>, w: seq<Word>)
    requires Inputs(kws, w)
    ensures |kws| == |w| == 64
  {}

  /** The working variables after `t` rounds. */
  function After(kws: seq<Word>, t: nat): Words
    requires t <= |kws|
  {
    Rounds(H0, kws[..t])
  }

  lemma NextRound(kws: seq<Word>, w: seq<Word>, t: nat)
    requires Inputs(kws, w) && t < 64
    ensures After(kws, t + 1) == Round(After(kws, t), Add(RoundConstant(t), w[t]))
  {
    hide Add, Round, Rounds, RoundConstant;
    RoundsStep(H0, kws, t);
  }

  lemma Rounds0(kws: seq<Word>, w: seq<Word>)
    requires Inputs(kws, w) && |kws| == |w| == 64 && Part0(w)
    requires After(kws, 0)
          == Words(0x6a09e667, 0xbb67ae85, 0x3c6ef372, 0xa54ff53a, 0x510e527f, 0x9b05688c, 0x1f83d9ab, 0x5be0cd19)
    ensures After(kws, 8)
         == Words(0x85a07b5f, 0xe5030380, 0x2b4209f5, 0x04409a6a, 0x0c657a79, 0x9b27a401, 0x714260ad, 0x43ada245)
  {
    hide Add, Round, RoundConstant, After, Inputs;
    Fips180Constants.Constants0();
    Steps0();
    Steps1();
    NextRound(kws, w, 0);
    NextRound(kws, w, 1);
    NextRound(kws, w, 2);
    NextRound(kws, w, 3);
    NextRound(kws, w, 4);
    NextRound(kws, w, 5);
    NextRound(kws, w, 6);
    NextRound(kws, w, 7);
  }

  lemma Rounds1(kws: seq<Word>, w: seq<Word>)
    requires Inputs(kws, w) && |kws| == |w| == 64 && Part1(w)
    requires After(kws, 8)
          == Words(0x85a07b5f, 0xe5030380, 0x2b4209f5, 0x04409a6a, 0x0c657a79, 0x9b27a401, 0x714260ad, 0x43ada245)
    ensures After(kws, 16)
         == Words(0xb0fa238e, 0xc0645fde, 0xd932eb16, 0x87912990, 0x07590dcd, 0x0b92f20c, 0x745a48de, 0x1e578218)
  {
    hide Add, Round, RoundConstant, After, Inputs;
    Fips180Constants.Constants1();
    Steps2();
    Steps3();
    NextRound(kws, w, 8);
    NextRound(kws, w, 9);
    NextRound(kws, w, 10);
    NextRound(kws, w, 11);
    NextRound(kws, w, 12);
    NextRound(kws, w, 13);
    NextRound(kws, w, 14);
    NextRound(kws, w, 15);
  }

  lemma Rounds2(kws: seq<Word>, w: seq<Word>)
    requires Inputs(kws, w) && |kws| == |w| == 64 && Part2(w)
    requires After(kws, 16)
          == Words(0xb0fa238e, 0xc0645fde, 0xd932eb16, 0x87912990, 0x07590dcd, 0x0b92f20c, 0x745a48de, 0x1e578218)
    ensures After(kws, 24)
         == Words(0xc5d53d8d, 0xa7a3623f, 0xc2606d6d, 0x9dc68b63, 0xaa47c347, 0x49f5114a, 0xe1257970, 0x8ada8930)
  {
    hide Add, Round, RoundConstant, After, Inputs;
    Fips180Constants.Constants2();
    Steps4();
    Steps5();
    NextRound(kws, w, 16);
    NextRound(kws, w, 17);
    NextRound(kws, w, 18);
    NextRound(kws, w, 19);
    NextRound(kws, w, 20);
    NextRound(kws, w, 21);
    NextRound(kws, w, 22);
    NextRound(kws, w, 23);
  }

  lemma Rounds3(kws: seq<Word>, w: seq<Word>)
    requires Inputs(kws, w) && |kws| == |w| == 64 && Part3(w)
    requires After(kws, 24)
          == Words(0xc5d53d8d, 0xa7a3623f, 0xc2606d6d, 0x9dc68b63, 0xaa47c347, 0x49f5114a, 0xe1257970, 0x8ada8930)
    ensures After(kws, 32)
         == Words(0x73b33bf5, 0xea992a22, 0xa0060b30, 0x363482c9, 0xba591112, 0x0109ab3a, 0xade79437, 0x6112a3b7)
  {
    hide Add, Round, RoundConstant, After, Inputs;
    Fips180Constants.Constants3();
    Steps6();
    Steps7();
    NextRound(kws, w, 24);
    NextRound(kws, w, 25);
    NextRound(kws, w, 26);
    NextRound(kws, w, 27);
    NextRound(kws, w, 28);
    NextRound(kws, w, 29);
    NextRound(kws, w, 30);
    NextRound(kws, w, 31);
  }

  lemma Rounds4(kws: seq<Word>, w: seq<Word>)
    requires Inputs(kws, w) && |kws| == |w| == 64 && Part4(w)
    requires After(kws, 32)
          == Words(0x73b33bf5, 0xea992a22, 0xa0060b30, 0x363482c9, 0xba591112, 0x0109ab3a, 0xade79437, 0x6112a3b7)
    ensures After(kws, 40)
         == Words(0x79ea687a, 0x6dc57a8a, 0x34df1604, 0x41a65cb1, 0x1efbc0a0, 0xf0781bc8, 0xa507a53d, 0x0772a26b)
  {
    hide Add, Round, RoundConstant, After, Inputs;
    Fips180Constants.Constants4();
    Steps8();
    Steps9();
    NextRound(kws, w, 32);
    NextRound(kws, w, 33);
    NextRound(kws, w, 34);
    NextRound(kws, w, 35);
    NextRound(kws, w, 36);
    NextRound(kws, w, 37);
    NextRound(kws, w, 38);
    NextRound(kws, w, 39);
  }

  lemma Rounds5(kws: seq<Word>, w: seq<Word>)
    requires Inputs(kws, w) && |kws| == |w| == 64 && Part5(w)
    requires After(kws, 40)
          == Words(0x79ea687a, 0x6dc57a8a, 0x34df1604, 0x41a65cb1, 0x1efbc0a0, 0xf0781bc8, 0xa507a53d, 0x0772a26b)
    ensures After(kws, 48)
         == Words(0x4172328d, 0xa14c14b0, 0x72ab4b91, 0x26628815, 0xfecf0bc6, 0xd57b94a9, 0xb7755da1, 0xa80f11f0)
  {
    hide Add, Round, RoundConstant, After, Inputs;
    Fips180Constants.Constants5();
    Steps10();
    Steps11();
    NextRound(kws, w, 40);
    NextRound(kws, w, 41);
    NextRound(kws, w, 42);
    NextRound(kws, w, 43);
    NextRound(kws, w, 44);
    NextRound(kws, w, 45);
    NextRound(kws, w, 46);
    NextRound(kws, w, 47);
  }

  lemma Rounds6(kws: seq<Word>, w: seq<Word>)
    requires Inputs(kws, w) && |kws| == |w| == 64 && Part6(w)
    requires After(kws, 48)
          == Words(0x4172328d, 0xa14c14b0, 0x72ab4b91, 0x26628815, 0xfecf0bc6, 0xd57b94a9, 0xb7755da1, 0xa80f11f0)
    ensures After(kws, 56)
         == Words(0x38cc9913, 0x3ec45cdb, 0xf5702fdb, 0x101fd28f, 0x54cb266b, 0xe50e1b4f, 0x9f4787c3, 0x529e7d00)
  {
    hide Add, Round, RoundConstant, After, Inputs;
    Fips180Constants.Constants6();
    Steps12();
    Steps13();
    NextRound(kws, w, 48);
    NextRound(kws, w, 49);
    NextRound(kws, w, 50);
    NextRound(kws, w, 51);
    NextRound(kws, w, 52);
    NextRound(kws, w, 53);
    NextRound(kws, w, 54);
    NextRound(kws, w, 55);
  }

  lemma Rounds7(kws: seq<Word>, w: seq<Word>)
    requires Inputs(kws, w) && |kws| == |w| == 64 && Part7(w)
    requires After(kws, 56)
          == Words(0x38cc9913, 0x3ec45cdb, 0xf5702fdb, 0x101fd28f, 0x54cb266b, 0xe50e1b4f, 0x9f4787c3, 0x529e7d00)
    ensures After(kws, 64)
         == Words(0x506e3058, 0xd39a2165, 0x04d24d6c, 0xb85e2ce9, 0x5ef50f24, 0xfb121210, 0x948d25b6, 0x961f4894)
  {
    hide Add, Round, RoundConstant, After, Inputs;
    Fips180Constants.Constants7();
    Steps14();
    Steps15();
    NextRound(kws, w, 56);
    NextRound(kws, w, 57);
    NextRound(kws, w, 58);
    NextRound(kws, w, 59);
    NextRound(kws, w, 60);
    NextRound(kws, w, 61);
    NextRound(kws, w, 62);
    NextRound(kws, w, 63);
  }

  lemma AllRounds(kws: seq<Word>, w: seq<Word>)
    requires Inputs(kws, w) && Scheduled(w)
    ensures Rounds(H0, kws)
         == Words(0x506e3058, 0xd39a2165, 0x04d24d6c, 0xb85e2ce9, 0x5ef50f24, 0xfb121210, 0x948d25b6, 0x961f4894)
  {
    hide Scheduled, Inputs, Part0, Part1, Part2, Part3, Part4, Part5, Part6, Part7;
    FirstParts(w);
    NextPart2(w);
    NextPart3(w);
    NextPart4(w);
    NextPart5(w);
    NextPart6(w);
    NextPart7(w);
    InputLengths(kws, w);
    assert kws[..0] == [] && kws[..64] == kws;
    assert After(kws, 0) == H0 && After(kws, 64) == Rounds(H0, kws);
    hide After;
    Rounds0(kws, w);
    Rounds1(kws, w);
    Rounds2(kws, w);
    Rounds3(kws, w);
    Rounds4(kws, w);
    Rounds5(kws, w);
    Rounds6(kws, w);
    Rounds7(kws, w);
  }

  lemma FinalSums()
    ensures AddWords(
      H0, Words(0x506e3058, 0xd39a2165, 0x04d24d6c, 0xb85e2ce9, 0x5ef50f24, 0xfb121210, 0x948d25b6, 0x961f4894))
      == Words(0xba7816bf, 0x8f01cfea, 0x414140de, 0x5dae2223, 0xb00361a3, 0x96177a9c, 0xb410ff61, 0xf20015ad)
  {}

  const DIGEST: seq<byte> := [
    0xba, 0x78, 0x16, 0xbf, 0x8f, 0x01, 0xcf, 0xea,
    0x41, 0x41, 0x40, 0xde, 0x5d, 0xae, 0x22, 0x23,
    0xb0, 0x03, 0x61, 0xa3, 0x96, 0x17, 0x7a, 0x9c,
    0xb4, 0x10, 0xff, 0x61, 0xf2, 0x00, 0x15, 0xad
  ]

  lemma DigestBytes()
    ensures WordBytes(0xba7816bf) == [0xba, 0x78, 0x16, 0xbf]
    ensures WordBytes(0x8f01cfea) == [0x8f, 0x01, 0xcf, 0xea]
    ensures WordBytes(0x414140de) == [0x41, 0x41, 0x40, 0xde]
    ensures WordBytes(0x5dae2223) == [0x5d, 0xae, 0x22, 0x23]
    ensures WordBytes(0xb00361a3) == [0xb0, 0x03, 0x61, 0xa3]
    ensures WordBytes(0x96177a9c) == [0x96, 0x17, 0x7a, 0x9c]
    ensures WordBytes(0xb410ff61) == [0xb4, 0x10, 0xff, 0x61]
    ensures WordBytes(0xf20015ad) == [0xf2, 0x00, 0x15, 0xad]
  {}

  /** FIPS 180-4: the hash of "abc" is ba7816bf 8f01cfea 414140de 5dae2223 b00361a3 96177a9c b410ff61 f20015ad. */
  lemma HashOfAbc()
    ensures Sha256(ABC) == DIGEST
  {
    hide Rounds, RoundInputs, AddWords, WordBytes, Pad, Inputs, Scheduled, WordsOfBlock, Block;
    BlockIsPadded();
    OneBlock(Block());
    BlockScheduled();
    BlockInputs();
    AllRounds(RoundInputs(Block()), WordsOfBlock());
    FinalSums();
    DigestBytes();
  }

  lemma BlockInputs()
    ensures Inputs(RoundInputs(Block()), WordsOfBlock())
  {
    hide Add, RoundConstant, Schedule, Block;
  }

  lemma OneBlock(b: seq<byte>)
    requires |b| == BLOCK_SIZE
    ensures Fold(Compress, H0, b) == AddWords(H0, Rounds(H0, RoundInputs(b)))
  {
    hide AddWords, Rounds, RoundInputs;
    assert b[..0] == [] && b[0..] == b;
  }
}
