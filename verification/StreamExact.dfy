/** Exactly when `sha256_update` streams: the bound of its resume loop shrinks at every filled block while its
    counter keeps running, so a call that starts inside a block and runs past its end drops or overwrites bytes.
    The compression function `Log`, which only records its blocks, makes the streamed bytes visible. */
module StreamExact {
  import opened Bytes
  import opened Fips180
  import opened Stream

  function Log(h: seq<byte>, block: seq<byte>): seq<byte> {
    h + block
  }

  /** Everything that reached the compression function, then what waits in the buffer. */
  function Fed(c: Ctx<seq<byte>>): seq<byte>
    requires c.Wf()
  {
    c.hash + c.block[..c.index]
  }

  lemma {:induction false} FoldLog(data: seq<byte>)
    requires |data| % BLOCK_SIZE == 0
    ensures Fold(Log, [], data) == data
    decreases |data|
  {
    if data != [] {
      FoldLog(data[..|data| - BLOCK_SIZE]);
      assert data == data[..|data| - BLOCK_SIZE] + data[|data| - BLOCK_SIZE..];
    }
  }

  lemma HoldsFeeds(c: Ctx<seq<byte>>, m: seq<byte>)
    requires Holds(Log, [], c, m)
    ensures Fed(c) == m
  {
    FoldLog(m[..Whole(|m|)]);
    assert m == m[..Whole(|m|)] + m[Whole(|m|)..];
  }

  lemma {:induction false} PutAllFeeds(c: Ctx<seq<byte>>, s: seq<byte>)
    requires c.Wf()
    ensures Fed(PutAll(Log, c, s)) == Fed(c) + s
    decreases |s|
  {
    if s == [] {
      assert Fed(c) + s == Fed(c);
    } else {
      var d, b := PutAll(Log, c, s[..|s| - 1]), s[|s| - 1];
      PutAllFeeds(c, s[..|s| - 1]);
      var block := d.block[d.index := b];
      assert block[..d.index + 1] == d.block[..d.index] + [b];
      assert Fed(Put(Log, d, b)) == Fed(d) + [b];
    }
  }

  /** Pushing blocks over a partly filled buffer forgets what was in the buffer. */
  lemma {:induction false} PushBlocksFeeds(c: Ctx<seq<byte>>, mem: Memory, pos: nat, len: nat)
    requires c.Wf() && len >= BLOCK_SIZE
    ensures var d := PushBlocks(Log, c, mem, pos, len);
            d.index == 0 && Fed(d) == c.hash + Slice(mem, pos, Whole(len))
    decreases len
  {
    var d, w := PushBlock(Log, c, Slice(mem, pos, BLOCK_SIZE)), Whole(len - BLOCK_SIZE);
    WholeStep(len);
    SliceSplit(mem, pos, BLOCK_SIZE, w);
    if len - BLOCK_SIZE >= BLOCK_SIZE {
      PushBlocksFeeds(d, mem, pos + BLOCK_SIZE, len - BLOCK_SIZE);
    } else {
      assert w == 0;
    }
  }

  // What is recorded is what is hashed.

  /** `l` records the blocks that `c` has folded, and both have the same bytes waiting. */
  ghost predicate Records<H>(f: (H, seq<byte>) -> H, h0: H, l: Ctx<seq<byte>>, c: Ctx<H>) {
    && l.Wf() && c.Wf() && |l.hash| % BLOCK_SIZE == 0
    && l.block == c.block && l.index == c.index && l.msglen == c.msglen && c.hash == Fold(f, h0, l.hash)
  }

  lemma SubmitRecords<H>(f: (H, seq<byte>) -> H, h0: H, log: seq<byte>, block: seq<byte>)
    requires |log| % BLOCK_SIZE == 0 && |block| == BLOCK_SIZE
    ensures |Log(log, block)| % BLOCK_SIZE == 0
    ensures f(Fold(f, h0, log), block) == Fold(f, h0, Log(log, block))
  {
    hide Fold;
    FoldStep(f, h0, log, block);
  }

  lemma PutRecords<H>(f: (H, seq<byte>) -> H, h0: H, l: Ctx<seq<byte>>, c: Ctx<H>, b: byte)
    requires Records(f, h0, l, c)
    ensures Records(f, h0, Put(Log, l, b), Put(f, c, b))
  {
    hide Fold, Log;
    SubmitRecords(f, h0, l.hash, l.block[l.index := b]);
  }

  lemma {:induction false} PutAllRecords<H>(f: (H, seq<byte>) -> H, h0: H, l: Ctx<seq<byte>>, c: Ctx<H>, s: seq<byte>)
    requires Records(f, h0, l, c)
    ensures Records(f, h0, PutAll(Log, l, s), PutAll(f, c, s))
    decreases |s|
  {
    hide Records;
    RecordsWf(f, h0, l, c);
    if s != [] {
      PutAllRecords(f, h0, l, c, s[..|s| - 1]);
      PutRecords(f, h0, PutAll(Log, l, s[..|s| - 1]), PutAll(f, c, s[..|s| - 1]), s[|s| - 1]);
    }
  }

  lemma RecordsWf<H>(f: (H, seq<byte>) -> H, h0: H, l: Ctx<seq<byte>>, c: Ctx<H>)
    requires Records(f, h0, l, c)
    ensures l.Wf() && c.Wf() && l.index == c.index && l.msglen == c.msglen
  {}

  lemma {:induction false} PushBlocksRecord<H>(f: (H, seq<byte>) -> H, h0: H, l: Ctx<seq<byte>>, c: Ctx<H>, mem: Memory,
                                               pos: nat, len: nat)
    requires Records(f, h0, l, c)
    ensures Records(f, h0, PushBlocks(Log, l, mem, pos, len), PushBlocks(f, c, mem, pos, len))
    decreases len
  {
    hide Fold, Log;
    if len >= BLOCK_SIZE {
      var block := Slice(mem, pos, BLOCK_SIZE);
      SubmitRecords(f, h0, l.hash, block);
      PushBlocksRecord(f, h0, PushBlock(Log, l, block), PushBlock(f, c, block), mem, pos + BLOCK_SIZE,
                       len - BLOCK_SIZE);
    }
  }

  /** Whatever the compression function, a call returns the same code as the recording one and hashes exactly the blocks
      that one records - in the region where calls stream and outside it. */
  lemma UpdateRecords<H>(f: (H, seq<byte>) -> H, h0: H, l: Ctx<seq<byte>>, c: Ctx<H>, mem: Memory, len: nat)
    requires Records(f, h0, l, c) && len < TWO_32
    ensures Update(Log, l, mem, len).1 == Update(f, c, mem, len).1
    ensures Records(f, h0, Update(Log, l, mem, len).0, Update(f, c, mem, len).0)
  {
    hide Records, PutAll, PushBlocks, ResumeEnd;
    RecordsWf(f, h0, l, c);
    if len > 0 && c.msglen + len < TWO_32 {
      var (i, len1) := if c.index > 0 then ResumeEnd(c.index, 0, len) else (0, len);
      var (l0, c0) := (l.(msglen := l.msglen + len), c.(msglen := c.msglen + len));
      LengthRecords(f, h0, l, c, l.msglen + len);
      PutAllRecords(f, h0, l0, c0, Slice(mem, 0, i));
      var (l1, c1) := (PutAll(Log, l0, Slice(mem, 0, i)), PutAll(f, c0, Slice(mem, 0, i)));
      PushBlocksRecord(f, h0, l1, c1, mem, i, len1);
      var (pos, len2) := (i + len1 / BLOCK_SIZE * BLOCK_SIZE, len1 % BLOCK_SIZE);
      PutAllRecords(f, h0, PushBlocks(Log, l1, mem, i, len1), PushBlocks(f, c1, mem, i, len1),
                    Slice(mem, pos, if i < len2 then len2 - i else 0));
    }
  }

  lemma LengthRecords<H>(f: (H, seq<byte>) -> H, h0: H, l: Ctx<seq<byte>>, c: Ctx<H>, n: nat)
    requires Records(f, h0, l, c) && n < TWO_32
    ensures Records(f, h0, l.(msglen := n), c.(msglen := n))
  {}

  /** A context that stands for a message is recorded by one that does. */
  lemma HoldsRecords<H>(f: (H, seq<byte>) -> H, h0: H, c: Ctx<H>, m: seq<byte>)
    requires Holds(f, h0, c, m)
    ensures var l := Ctx(m[..Whole(|m|)], c.block, c.index, c.msglen);
            Records(f, h0, l, c) && Holds(Log, [], l, m) && Fed(l) == m
  {
    hide Fold;
    FoldLog(m[..Whole(|m|)]);
    assert m == m[..Whole(|m|)] + m[Whole(|m|)..];
  }

  /** The fill level the first loop leaves. */
  function ResumeLevel(index: nat, i: nat, len: nat): (level: nat)
    requires index < BLOCK_SIZE
    ensures level < BLOCK_SIZE
    decreases if i < len then len - i else 0
  {
    if i >= len then index
    else if index + 1 == BLOCK_SIZE then ResumeLevel(0, i + 1, len - 1 - i)
    else ResumeLevel(index + 1, i + 1, len)
  }

  lemma {:induction false} ResumeLevelFills(index: nat, i: nat, len: nat)
    requires index < BLOCK_SIZE && i <= len && index + (len - i) >= BLOCK_SIZE
    ensures var i1 := i + (BLOCK_SIZE - index); ResumeLevel(index, i, len) == ResumeLevel(0, i1, len - i1)
    decreases BLOCK_SIZE - index
  {
    if index + 1 < BLOCK_SIZE {
      ResumeLevelFills(index + 1, i + 1, len);
    }
  }

  /** What the first loop has done when it stops: at a block boundary the two counters stay within the bound it
      started from, inside a block they have met. */
  lemma {:induction false} ResumeStops(index: nat, i: nat, len: nat)
    requires index < BLOCK_SIZE && index <= i && (i < len || index == 0)
    ensures var (i1, len1) := ResumeEnd(index, i, len);
            var level := ResumeLevel(index, i, len);
            && level <= index + (i1 - i)
            && (level == 0 && i < len ==> i1 + len1 <= len)
            && (level == 0 && i >= len ==> i1 == i && len1 == len)
            && (level > 0 ==> i1 == len1 && level <= i1)
    decreases if i < len then len - i else 0
  {
    if i < len {
      if index + 1 == BLOCK_SIZE {
        ResumeStops(0, i + 1, len - 1 - i);
      } else if i + 1 < len {
        ResumeStops(index + 1, i + 1, len);
      }
    }
  }

  lemma PutSliceNothing(c: Ctx<seq<byte>>, mem: Memory, i: nat)
    requires c.Wf()
    ensures PutAll(Log, c, Slice(mem, i, 0)) == c
  {}

  lemma PutSliceFirst(c: Ctx<seq<byte>>, mem: Memory, i: nat, n: nat)
    requires c.Wf()
    ensures PutAll(Log, c, Slice(mem, i, n + 1)) == PutAll(Log, Put(Log, c, mem(i)), Slice(mem, i + 1, n))
  {
    SliceSplit(mem, i, 1, n);
    assert Slice(mem, i, 1) == [mem(i)];
    assert PutAll(Log, c, [mem(i)]) == Put(Log, c, mem(i)) by {
      assert PutAll(Log, c, []) == c;
    }
    PutAllConcat(Log, c, [mem(i)], Slice(mem, i + 1, n));
  }

  lemma {:induction false} LevelIsIndex(c: Ctx<seq<byte>>, mem: Memory, i: nat, len: nat)
    requires c.Wf()
    ensures var i1 := ResumeEnd(c.index, i, len).0;
            PutAll(Log, c, Slice(mem, i, i1 - i)).index == ResumeLevel(c.index, i, len)
    decreases if i < len then len - i else 0
  {
    hide PutAll, Slice;
    if i >= len {
      PutSliceNothing(c, mem, i);
    } else {
      var d := Put(Log, c, mem(i));
      LevelIsIndex(d, mem, i + 1, if c.index + 1 == BLOCK_SIZE then len - 1 - i else len);
      PutSliceFirst(c, mem, i, ResumeEnd(c.index, i, len).0 - (i + 1));
    }
  }

  /** Past the resume loop only whole blocks can follow: the byte loop at the end never runs. */
  lemma UpdateResumed(c: Ctx<seq<byte>>, mem: Memory, len: nat)
    requires c.Wf() && 0 < c.index && 0 < len && c.msglen + len < TWO_32
    ensures var (i, len1) := ResumeEnd(c.index, 0, len);
            var c1 := PutAll(Log, c.(msglen := c.msglen + len), Slice(mem, 0, i));
            Update(Log, c, mem, len).0 == PushBlocks(Log, c1, mem, i, len1)
  {
    var (i, len1) := ResumeEnd(c.index, 0, len);
    assert len1 % BLOCK_SIZE <= len1 <= i;
  }

  lemma OverrunCounters(index: nat, len: nat)
    requires 0 < index < BLOCK_SIZE && index + len > BLOCK_SIZE
    ensures var (i, len1) := ResumeEnd(index, 0, len);
            var level := ResumeLevel(index, 0, len);
            && level <= i < len
            && (level > 0 ==> len1 == i)
            && (level == 0 && len1 >= BLOCK_SIZE ==> i + len1 < len)
  {
    var first := BLOCK_SIZE - index;
    ResumeFills(index, 0, len);
    ResumeLevelFills(index, 0, len);
    ResumeStops(0, first, len - first);
  }

  /** A call that runs past the block it starts in loses bytes, or writes whole blocks over a partly filled one. */
  lemma OverrunLosesOrOverwrites(c: Ctx<seq<byte>>, mem: Memory, len: nat)
    requires c.Wf() && 0 < c.index && c.index + len > BLOCK_SIZE && c.msglen + len < TWO_32
    ensures var (i, len1) := ResumeEnd(c.index, 0, len);
            var level := ResumeLevel(c.index, 0, len);
            var fed := Fed(Update(Log, c, mem, len).0);
            || |fed| < |Fed(c)| + len
            || (&& 0 < level <= i < len && Whole(len1) > 0
                && fed == (Fed(c) + Slice(mem, 0, i))[..|Fed(c)| + i - level] + Slice(mem, i, Whole(len1)))
  {
    hide Update, ResumeEnd, ResumeLevel, PutAll;
    var (i, len1) := ResumeEnd(c.index, 0, len);
    OverrunCounters(c.index, len);
    UpdateResumed(c, mem, len);
    var c0 := c.(msglen := c.msglen + len);
    var c1 := PutAll(Log, c0, Slice(mem, 0, i));
    LevelIsIndex(c0, mem, 0, len);
    PutAllFeeds(c0, Slice(mem, 0, i));
    assert Fed(c1) == Fed(c) + Slice(mem, 0, i);
    if len1 >= BLOCK_SIZE {
      PushBlocksFeeds(c1, mem, i, len1);
      assert c1.hash == Fed(c1)[..|Fed(c1)| - c1.index];
    }
  }

  /** Every call of `len` bytes on a context the code can hold with a buffer filled up to `k` - its length is that of
      the message absorbed - streams its message, unless the length overflows and the call is refused. */
  ghost predicate Streams(k: nat, len: nat)
    requires len < TWO_32
  {
    forall c: Ctx<seq<byte>>, mem: Memory, m: seq<byte> ::
      Holds(Log, [], c, m) && c.msglen == |m| && c.index == k && c.msglen + len < TWO_32
      ==> Holds(Log, [], Update(Log, c, mem, len).0, m + Slice(mem, 0, len))
  }

  lemma StreamsWithinBlock(k: nat, len: nat)
    requires len < TWO_32 && (k == 0 || k + len <= BLOCK_SIZE)
    ensures Streams(k, len)
  {
    forall c: Ctx<seq<byte>>, mem: Memory, m: seq<byte>
      | Holds(Log, [], c, m) && c.msglen == |m| && c.index == k && c.msglen + len < TWO_32
      ensures Holds(Log, [], Update(Log, c, mem, len).0, m + Slice(mem, 0, len))
    {
      UpdateIsPutAll(Log, c, mem, len);
      var c0 := c.(msglen := c.msglen + len);
      assert Holds(Log, [], c0, m);
      PutAllHolds(Log, [], c0, m, Slice(mem, 0, len));
    }
  }

  function Marker(at: nat): Memory {
    (i: nat) => if i == at then 1 else 0
  }

  /** The context that `sha256_begin` leaves for a message shorter than a block. */
  lemma Begun(m: seq<byte>)
    requires |m| < BLOCK_SIZE
    ensures var c := Begin(Log, [], m); Holds(Log, [], c, m) && c.msglen == c.index == |m| && Fed(c) == m
  {
    hide PutAll, UpdateWith, Fold;
    BeginIsUpdate(Log, [], m);
    HoldsFeeds(Begin(Log, [], m), m);
  }

  /** A call that overruns `k` buffered zeros, on a message with one other byte where it first goes wrong. */
  lemma OverrunMisses(c: Ctx<seq<byte>>, k: nat, len: nat) returns (mem: Memory)
    requires 0 < k < BLOCK_SIZE && BLOCK_SIZE < k + len < TWO_32
    requires c.Wf() && c.index == c.msglen == k && Fed(c) == Zeros(k)
    ensures Update(Log, c, mem, len).1 == Ok
    ensures Fed(Update(Log, c, mem, len).0) != Zeros(k) + Slice(mem, 0, len)
  {
    hide Update, ResumeEnd, ResumeLevel;
    var i, level := ResumeEnd(k, 0, len).0, ResumeLevel(k, 0, len);
    mem := Marker(i);
    var d, n := Update(Log, c, mem, len).0, Zeros(k) + Slice(mem, 0, len);
    OverflowChangesNothing(Log, c, mem, len);
    OverrunLosesOrOverwrites(c, mem, len);
    if |Fed(d)| == |n| {
      var p := k + i - level;
      assert n[p] == 0 && Fed(d)[p] == 1;
    }
  }

  lemma OverrunDoesNotStream(k: nat, len: nat)
    requires 0 < k < BLOCK_SIZE && BLOCK_SIZE < k + len < TWO_32
    ensures !Streams(k, len)
  {
    hide Update, Begin;
    var m := Zeros(k);
    var c := Begin(Log, [], m);
    Begun(m);
    var mem := OverrunMisses(c, k, len);
    var d, n := Update(Log, c, mem, len).0, m + Slice(mem, 0, len);
    if Holds(Log, [], d, n) {
      HoldsFeeds(d, n);
    }
  }

  /** The same of any compression function: some call that overruns is accepted on a context that stands for `m`, and
      what it leaves hashed and waiting, `log` and the buffer, is not `m` with the bytes of the call. */
  lemma OverrunHashesOther<H>(f: (H, seq<byte>) -> H, h0: H, k: nat, len: nat)
    returns (c: Ctx<H>, m: seq<byte>, mem: Memory, log: seq<byte>)
    requires 0 < k < BLOCK_SIZE && BLOCK_SIZE < k + len < TWO_32
    ensures Holds(f, h0, c, m) && c.msglen == |m| && c.index == k
    ensures var (d, ec) := Update(f, c, mem, len);
            && ec == Ok && |log| % BLOCK_SIZE == 0 && d.hash == Fold(f, h0, log)
            && log + d.block[..d.index] != m + Slice(mem, 0, len)
  {
    hide Update, Begin, Fold;
    m := Zeros(k);
    c := Begin(f, h0, m);
    BeginIsUpdate(f, h0, m);
    BegunLength(f, h0, m);
    var l := Ctx(m[..Whole(|m|)], c.block, c.index, c.msglen);
    HoldsRecords(f, h0, c, m);
    mem := OverrunMisses(l, k, len);
    UpdateRecords(f, h0, l, c, mem, len);
    log := Update(Log, l, mem, len).0.hash;
  }

  lemma BegunLength<H>(f: (H, seq<byte>) -> H, h0: H, m: seq<byte>)
    requires |m| < TWO_32
    ensures Begin(f, h0, m).msglen == |m|
  {}

  /** The exact condition, which a caller can check before the call. With `k` bytes buffered at least `k` have been
      absorbed, so the last case is the one in which every such call overflows the length. */
  lemma StreamsExactly(k: nat, len: nat)
    requires len < TWO_32 && k < BLOCK_SIZE
    ensures Streams(k, len) <==> k == 0 || k + len <= BLOCK_SIZE || k + len >= TWO_32
  {
    if k == 0 || k + len <= BLOCK_SIZE {
      StreamsWithinBlock(k, len);
    } else if k + len < TWO_32 {
      OverrunDoesNotStream(k, len);
    }
  }

  /** One byte absorbed, then a call of 100: the block fills after 63 and the other 37 are dropped, yet the length
      counts them. */
  lemma OverrunExample(b: byte, mem: Memory)
    ensures var c := Begin(Log, [], [b]);
            var (d, ec) := Update(Log, c, mem, 100);
            c.msglen == 1 && ec == Ok && d.msglen == 101 && Fed(d) == [b] + Slice(mem, 0, 63)
  {
    hide Begin;
    var c := Begin(Log, [], [b]);
    Begun([b]);
    OverflowChangesNothing(Log, c, mem, 100);
    ResumeFills(1, 0, 100);
    UpdateResumed(c, mem, 100);
    PutAllFeeds(c.(msglen := 101), Slice(mem, 0, 63));
  }
}
