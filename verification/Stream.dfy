/** The buffering of sha256.c apart from the compression function: how bytes reach `f` in 64-byte blocks.
    Everything here holds for any compression function `f` on any chaining value `H`. */
module Stream {
  import opened Bytes
  import opened Fips180

  datatype Ctx<H> = Ctx(hash: H, block: seq<byte>, index: nat, msglen: nat) {
    predicate Wf() {
      |block| == BLOCK_SIZE && index < BLOCK_SIZE && msglen < TWO_32
    }
  }

  datatype Code = Ok | Overflow

  function Reset<H>(h0: H): Ctx<H> {
    Ctx(h0, Zeros(BLOCK_SIZE), 0, 0)
  }

  /** Stores one byte, compressing when the block fills up. */
  function Put<H>(f: (H, seq<byte>) -> H, c: Ctx<H>, b: byte): (d: Ctx<H>)
    requires c.Wf()
    ensures d.Wf() && d.msglen == c.msglen
  {
    var block := c.block[c.index := b];
    if c.index + 1 == BLOCK_SIZE then c.(hash := f(c.hash, block), block := block, index := 0)
    else c.(block := block, index := c.index + 1)
  }

  function PutAll<H>(f: (H, seq<byte>) -> H, c: Ctx<H>, s: seq<byte>): (d: Ctx<H>)
    requires c.Wf()
    ensures d.Wf() && d.msglen == c.msglen
    decreases |s|
  {
    if s == [] then c else Put(f, PutAll(f, c, s[..|s| - 1]), s[|s| - 1])
  }

  lemma PutNothing<H>(f: (H, seq<byte>) -> H, c: Ctx<H>, mem: Memory, from: nat)
    requires c.Wf()
    ensures PutAll(f, c, []) == PutAll(f, c, Slice(mem, from, 0)) == c
  {
    assert Slice(mem, from, 0) == [];
  }

  lemma PutAllStep<H>(f: (H, seq<byte>) -> H, c: Ctx<H>, mem: Memory, from: nat, n: nat)
    requires c.Wf()
    ensures PutAll(f, c, Slice(mem, from, n + 1)) == Put(f, PutAll(f, c, Slice(mem, from, n)), mem(from + n))
  {
    var s := Slice(mem, from, n + 1);
    assert s[..|s| - 1] == Slice(mem, from, n) && s[|s| - 1] == mem(from + n);
    assert PutAll(f, c, s) == Put(f, PutAll(f, c, s[..|s| - 1]), s[|s| - 1]);
  }

  lemma PutAllNext<H>(f: (H, seq<byte>) -> H, c: Ctx<H>, s: seq<byte>, n: nat)
    requires c.Wf() && n < |s|
    ensures PutAll(f, c, s[..n + 1]) == Put(f, PutAll(f, c, s[..n]), s[n])
  {
    assert s[..n + 1][..n] == s[..n];
  }

  /** Copies a whole block over the buffer and compresses it, whatever the buffer held. */
  function PushBlock<H>(f: (H, seq<byte>) -> H, c: Ctx<H>, block: seq<byte>): (d: Ctx<H>)
    requires c.Wf() && |block| == BLOCK_SIZE
    ensures d.Wf() && d.msglen == c.msglen
  {
    c.(hash := f(c.hash, block), block := block, index := 0)
  }

  /** Memory from the message pointer on. Only the first `len` bytes of a call are the message. */
  type Memory = nat -> byte

  function Slice(mem: Memory, from: nat, n: nat): (s: seq<byte>)
    ensures |s| == n
    ensures forall i :: 0 <= i < n ==> s[i] == mem(from + i)
  {
    seq(n, i requires 0 <= i < n => mem(from + i))
  }

  /** Where the first loop of `sha256_update` stops when it starts at fill level `index` with counter `i` and
      bound `len`: the bound shrinks at every filled block while the counter keeps running. */
  function ResumeEnd(index: nat, i: nat, len: nat): (end: (nat, nat))
    requires index < BLOCK_SIZE
    ensures end.0 >= end.1 && end.0 >= i && end.1 <= len
    decreases if i < len then len - i else 0
  {
    if i >= len then (i, len)
    else if index + 1 == BLOCK_SIZE then ResumeEnd(0, i + 1, len - 1 - i)
    else ResumeEnd(index + 1, i + 1, len)
  }

  function PushBlocks<H>(f: (H, seq<byte>) -> H, c: Ctx<H>, mem: Memory, pos: nat, len: nat): (d: Ctx<H>)
    requires c.Wf()
    ensures d.Wf() && d.msglen == c.msglen
    decreases len
  {
    if len < BLOCK_SIZE then c
    else PushBlocks(f, PushBlock(f, c, Slice(mem, pos, BLOCK_SIZE)), mem, pos + BLOCK_SIZE, len - BLOCK_SIZE)
  }

  /** `sha256_update`, loop by loop. */
  function Update<H>(f: (H, seq<byte>) -> H, c: Ctx<H>, mem: Memory, len: nat): (r: (Ctx<H>, Code))
    requires c.Wf() && len < TWO_32
    ensures r.0.Wf()
  {
    if len == 0 then (c, Ok)
    else if c.msglen + len >= TWO_32 then (c, Overflow)
    else
      var (i, len1) := if c.index > 0 then ResumeEnd(c.index, 0, len) else (0, len);
      var c1 := PutAll(f, c.(msglen := c.msglen + len), Slice(mem, 0, i));
      var c2 := PushBlocks(f, c1, mem, i, len1);
      var (pos, len2) := (i + len1 / BLOCK_SIZE * BLOCK_SIZE, len1 % BLOCK_SIZE);
      (PutAll(f, c2, Slice(mem, pos, if i < len2 then len2 - i else 0)), Ok)
  }

  function Marked(tail: seq<byte>): (s: seq<byte>)
    requires |tail| < BLOCK_SIZE
    ensures |s| == BLOCK_SIZE
  {
    tail + [0x80] + Zeros(BLOCK_SIZE - |tail| - 1)
  }

  /** `sha256_finish`: marker byte, zeros, bit length, in one block or two. */
  function Finish<H>(f: (H, seq<byte>) -> H, c: Ctx<H>): (d: Ctx<H>)
    requires c.Wf()
    ensures d.Wf() && d.msglen == c.msglen
  {
    var marked := Marked(c.block[..c.index]);
    var (h, block) := if c.index >= 56 then (f(c.hash, marked), Zeros(BLOCK_SIZE)) else (c.hash, marked);
    var last := block[..56] + LengthField(c.msglen);
    c.(hash := f(h, last), block := last, index := 0)
  }

  // What a context stands for.

  function Whole(n: nat): (w: nat)
    ensures w % BLOCK_SIZE == 0 && w <= n < w + BLOCK_SIZE
  {
    n - n % BLOCK_SIZE
  }

  /** `c` is the state after the bytes `m`: the full blocks are folded into the hash, the rest is in the buffer. */
  ghost predicate Holds<H>(f: (H, seq<byte>) -> H, h0: H, c: Ctx<H>, m: seq<byte>) {
    && c.Wf()
    && c.index == |m| - Whole(|m|)
    && c.block[..c.index] == m[Whole(|m|)..]
    && c.hash == Fold(f, h0, m[..Whole(|m|)])
  }

  lemma FoldStep<H>(f: (H, seq<byte>) -> H, h: H, data: seq<byte>, block: seq<byte>)
    requires |data| % BLOCK_SIZE == 0 && |block| == BLOCK_SIZE
    ensures Fold(f, h, data + block) == f(Fold(f, h, data), block)
  {
    var s := data + block;
    assert s[..|s| - BLOCK_SIZE] == data && s[|s| - BLOCK_SIZE..] == block;
  }

  lemma WholeNext(n: nat)
    ensures Whole(n) <= n < Whole(n) + BLOCK_SIZE && Whole(n) % BLOCK_SIZE == 0
    ensures Whole(n + 1) == if n + 1 == Whole(n) + BLOCK_SIZE then n + 1 else Whole(n)
  {}

  lemma PutHolds<H>(f: (H, seq<byte>) -> H, h0: H, c: Ctx<H>, m: seq<byte>, b: byte)
    requires Holds(f, h0, c, m)
    ensures Holds(f, h0, Put(f, c, b), m + [b])
  {
    hide Fold;
    var w, block, n := Whole(|m|), c.block[c.index := b], m + [b];
    WholeNext(|m|);
    hide Whole;
    assert block[..c.index + 1] == c.block[..c.index] + [b];
    if c.index + 1 == BLOCK_SIZE {
      assert n == m[..w] + block && n[..|n|] == n;
      FoldStep(f, h0, m[..w], block);
    } else {
      assert n[..w] == m[..w] && n[w..] == m[w..] + [b];
    }
  }

  lemma {:induction false} PutAllHolds<H>(f: (H, seq<byte>) -> H, h0: H, c: Ctx<H>, m: seq<byte>, s: seq<byte>)
    requires Holds(f, h0, c, m)
    ensures Holds(f, h0, PutAll(f, c, s), m + s)
    decreases |s|
  {
    if s == [] {
      assert m + s == m;
    } else {
      var init, b := s[..|s| - 1], s[|s| - 1];
      PutAllHolds(f, h0, c, m, init);
      PutHolds(f, h0, PutAll(f, c, init), m + init, b);
      assert m + s == m + init + [b];
    }
  }

  // Byte by byte and block by block are the same.

  lemma {:induction false} PutAllConcat<H>(f: (H, seq<byte>) -> H, c: Ctx<H>, s: seq<byte>, t: seq<byte>)
    requires c.Wf()
    ensures PutAll(f, PutAll(f, c, s), t) == PutAll(f, c, s + t)
    decreases |t|
  {
    if t == [] {
      assert s + t == s;
    } else {
      var u := s + t;
      assert u[..|u| - 1] == s + t[..|t| - 1];
      PutAllConcat(f, c, s, t[..|t| - 1]);
    }
  }

  lemma {:induction false} PutPart<H>(f: (H, seq<byte>) -> H, c: Ctx<H>, s: seq<byte>)
    requires c.Wf() && c.index + |s| < BLOCK_SIZE
    ensures PutAll(f, c, s)
         == c.(block := c.block[..c.index] + s + c.block[c.index + |s|..], index := c.index + |s|)
    decreases |s|
  {
    if s == [] {
      assert c.block[..c.index] + c.block[c.index..] == c.block;
    } else {
      var init := s[..|s| - 1];
      PutPart(f, c, init);
      assert PutAll(f, c, s).block == c.block[..c.index] + s + c.block[c.index + |s|..];
    }
  }

  lemma PushBlockIsPutAll<H>(f: (H, seq<byte>) -> H, c: Ctx<H>, block: seq<byte>)
    requires c.Wf() && c.index == 0 && |block| == BLOCK_SIZE
    ensures PushBlock(f, c, block) == PutAll(f, c, block)
  {
    var init := block[..BLOCK_SIZE - 1];
    PutPart(f, c, init);
    var d := PutAll(f, c, init);
    assert d.block[d.index := block[BLOCK_SIZE - 1]] == block;
  }

  lemma WholeStep(n: nat)
    requires n >= BLOCK_SIZE
    ensures Whole(n) == BLOCK_SIZE + Whole(n - BLOCK_SIZE)
  {}

  lemma SliceSplit(mem: Memory, from: nat, m: nat, n: nat)
    ensures Slice(mem, from, m + n) == Slice(mem, from, m) + Slice(mem, from + m, n)
  {}

  lemma {:induction false} PushBlocksIsPutAll<H>(f: (H, seq<byte>) -> H, c: Ctx<H>, mem: Memory, pos: nat, len: nat)
    requires c.Wf() && c.index == 0
    ensures PushBlocks(f, c, mem, pos, len) == PutAll(f, c, Slice(mem, pos, Whole(len)))
    ensures PushBlocks(f, c, mem, pos, len).index == 0
    decreases len
  {
    if len < BLOCK_SIZE {
      assert Whole(len) == 0;
    } else {
      var block, w := Slice(mem, pos, BLOCK_SIZE), Whole(len - BLOCK_SIZE);
      PushBlockIsPutAll(f, c, block);
      PushBlocksIsPutAll(f, PushBlock(f, c, block), mem, pos + BLOCK_SIZE, len - BLOCK_SIZE);
      WholeStep(len);
      SliceSplit(mem, pos, BLOCK_SIZE, w);
      PutAllConcat(f, c, block, Slice(mem, pos + BLOCK_SIZE, w));
    }
  }

  // A resumed block that does not overrun.

  lemma {:induction false} ResumeFits(index: nat, i: nat, len: nat)
    requires index < BLOCK_SIZE && i <= len && index + (len - i) < BLOCK_SIZE
    ensures ResumeEnd(index, i, len) == (len, len)
    decreases len - i
  {
    if i < len {
      ResumeFits(index + 1, i + 1, len);
    }
  }

  lemma {:induction false} ResumeFills(index: nat, i: nat, len: nat)
    requires index < BLOCK_SIZE && i <= len && index + (len - i) >= BLOCK_SIZE
    ensures var i1 := i + (BLOCK_SIZE - index); ResumeEnd(index, i, len) == ResumeEnd(0, i1, len - i1)
    decreases BLOCK_SIZE - index
  {
    if index + 1 < BLOCK_SIZE {
      ResumeFills(index + 1, i + 1, len);
    }
  }

  lemma UpdateFromEmpty<H>(f: (H, seq<byte>) -> H, c: Ctx<H>, mem: Memory, len: nat)
    requires c.Wf() && 0 < len && c.msglen + len < TWO_32 && c.index == 0
    ensures Update(f, c, mem, len) == (PutAll(f, c.(msglen := c.msglen + len), Slice(mem, 0, len)), Ok)
  {
    hide PutAll, PushBlocks, ResumeEnd, Whole;
    var c0, w := c.(msglen := c.msglen + len), Whole(len);
    PutNothing(f, c0, mem, 0);
    PushBlocksIsPutAll(f, c0, mem, 0, len);
    assert w == len / BLOCK_SIZE * BLOCK_SIZE && len - w == len % BLOCK_SIZE;
    PutAllConcat(f, c0, Slice(mem, 0, w), Slice(mem, w, len - w));
    SliceSplit(mem, 0, w, len - w);
  }

  lemma UpdateWithinBlock<H>(f: (H, seq<byte>) -> H, c: Ctx<H>, mem: Memory, len: nat)
    requires c.Wf() && 0 < len && c.msglen + len < TWO_32 && 0 < c.index && c.index + len <= BLOCK_SIZE
    ensures Update(f, c, mem, len) == (PutAll(f, c.(msglen := c.msglen + len), Slice(mem, 0, len)), Ok)
  {
    hide PutAll;
    if c.index + len < BLOCK_SIZE {
      ResumeFits(c.index, 0, len);
    } else {
      ResumeFills(c.index, 0, len);
    }
    var (i, len1) := ResumeEnd(c.index, 0, len);
    assert i == len && len1 < BLOCK_SIZE;
    PutNothing(f, PutAll(f, c.(msglen := c.msglen + len), Slice(mem, 0, len)), mem, len);
  }

  /** A call fails exactly when the 32-bit message length would wrap, and then it leaves the context alone. */
  lemma OverflowChangesNothing<H>(f: (H, seq<byte>) -> H, c: Ctx<H>, mem: Memory, len: nat)
    requires c.Wf() && len < TWO_32
    ensures Update(f, c, mem, len).1 == Overflow <==> c.msglen + len >= TWO_32
    ensures Update(f, c, mem, len).1 == Overflow ==> Update(f, c, mem, len).0 == c
  {
    hide ResumeEnd, PutAll, PushBlocks;
  }

  /** On an empty buffer, or one the call does not overrun, `sha256_update` puts its bytes one after the other;
      the whole context agrees, stale buffer bytes included. */
  lemma UpdateIsPutAll<H>(f: (H, seq<byte>) -> H, c: Ctx<H>, mem: Memory, len: nat)
    requires c.Wf() && c.msglen + len < TWO_32
    requires c.index == 0 || c.index + len <= BLOCK_SIZE
    ensures Update(f, c, mem, len) == (PutAll(f, c.(msglen := c.msglen + len), Slice(mem, 0, len)), Ok)
  {
    if len > 0 && c.index == 0 {
      UpdateFromEmpty(f, c, mem, len);
    } else if len > 0 {
      UpdateWithinBlock(f, c, mem, len);
    }
  }

  // Runs of updates.

  function Pointer(s: seq<byte>): Memory {
    (i: nat) => if i < |s| then s[i] else 0
  }

  lemma SliceOfPointer(s: seq<byte>)
    ensures Slice(Pointer(s), 0, |s|) == s
  {}

  function UpdateWith<H>(f: (H, seq<byte>) -> H, c: Ctx<H>, s: seq<byte>): (d: Ctx<H>)
    requires c.Wf() && |s| < TWO_32
    ensures d.Wf()
  {
    Update(f, c, Pointer(s), |s|).0
  }

  /** A run of calls each of which starts on an empty buffer or stays inside it, without length overflow. */
  ghost predicate Admissible<H>(f: (H, seq<byte>) -> H, c: Ctx<H>, chunks: seq<seq<byte>>)
    requires c.Wf()
    decreases |chunks|
  {
    chunks == [] ||
    (&& (c.index == 0 || c.index + |chunks[0]| <= BLOCK_SIZE)
     && c.msglen + |chunks[0]| < TWO_32
     && Admissible(f, UpdateWith(f, c, chunks[0]), chunks[1..]))
  }

  function UpdateRun<H>(f: (H, seq<byte>) -> H, c: Ctx<H>, chunks: seq<seq<byte>>): (d: Ctx<H>)
    requires c.Wf() && forall s :: s in chunks ==> |s| < TWO_32
    ensures d.Wf()
    decreases |chunks|
  {
    if chunks == [] then c else UpdateRun(f, UpdateWith(f, c, chunks[0]), chunks[1..])
  }

  function Flatten(chunks: seq<seq<byte>>): seq<byte>
    decreases |chunks|
  {
    if chunks == [] then [] else chunks[0] + Flatten(chunks[1..])
  }

  lemma UpdateChunk<H>(f: (H, seq<byte>) -> H, c: Ctx<H>, s: seq<byte>)
    requires c.Wf() && c.msglen + |s| < TWO_32
    requires c.index == 0 || c.index + |s| <= BLOCK_SIZE
    ensures UpdateWith(f, c, s) == PutAll(f, c.(msglen := c.msglen + |s|), s)
  {
    hide Update, PutAll;
    UpdateIsPutAll(f, c, Pointer(s), |s|);
    SliceOfPointer(s);
  }

  /** Any admissible run of updates leaves the context of putting the concatenated message byte by byte. */
  lemma {:induction false} UpdateRunIsPutAll<H>(f: (H, seq<byte>) -> H, c: Ctx<H>, chunks: seq<seq<byte>>)
    requires c.Wf() && Admissible(f, c, chunks)
    requires forall s :: s in chunks ==> |s| < TWO_32
    ensures c.msglen + |Flatten(chunks)| < TWO_32
    ensures UpdateRun(f, c, chunks)
         == PutAll(f, c.(msglen := c.msglen + |Flatten(chunks)|), Flatten(chunks))
    decreases |chunks|
  {
    hide UpdateWith, PutAll;
    if chunks == [] {
      PutNothing(f, c, Pointer([]), 0);
    } else {
      var s, rest := chunks[0], chunks[1..];
      UpdateChunk(f, c, s);
      UpdateRunIsPutAll(f, UpdateWith(f, c, s), rest);
      PutAllAfter(f, c, s, Flatten(rest));
    }
  }

  lemma PutAllAfter<H>(f: (H, seq<byte>) -> H, c: Ctx<H>, s: seq<byte>, t: seq<byte>)
    requires c.Wf() && c.msglen + |s| + |t| < TWO_32
    ensures var d := PutAll(f, c.(msglen := c.msglen + |s|), s);
            PutAll(f, d.(msglen := d.msglen + |t|), t) == PutAll(f, c.(msglen := c.msglen + |s + t|), s + t)
  {
    var n := c.msglen + |s| + |t|;
    PutAllLength(f, c.(msglen := c.msglen + |s|), s, n);
    PutAllConcat(f, c.(msglen := n), s, t);
  }

  lemma {:induction false} PutAllLength<H>(f: (H, seq<byte>) -> H, c: Ctx<H>, s: seq<byte>, n: nat)
    requires c.Wf() && n < TWO_32
    ensures PutAll(f, c, s).(msglen := n) == PutAll(f, c.(msglen := n), s)
    decreases |s|
  {
    if s != [] {
      PutAllLength(f, c, s[..|s| - 1], n);
    }
  }

  lemma ResetThenPutAll<H>(f: (H, seq<byte>) -> H, h0: H, m: seq<byte>)
    requires |m| < TWO_32
    ensures Holds(f, h0, PutAll(f, Reset(h0).(msglen := |m|), m), m)
  {
    var c0 := Reset(h0).(msglen := |m|);
    assert Holds(f, h0, c0, []);
    PutAllHolds(f, h0, c0, [], m);
    assert [] + m == m;
  }

  /** Splitting a message into an admissible run of updates changes nothing: the context is that of one update on
      the concatenation, and it stands for that message. */
  lemma ChunkingIsInvisible<H>(f: (H, seq<byte>) -> H, h0: H, chunks: seq<seq<byte>>)
    requires Admissible(f, Reset(h0), chunks)
    requires forall s :: s in chunks ==> |s| < TWO_32
    ensures |Flatten(chunks)| < TWO_32
    ensures var m := Flatten(chunks);
            var c := UpdateRun(f, Reset(h0), chunks);
            c == UpdateWith(f, Reset(h0), m) && Holds(f, h0, c, m) && c.msglen == |m|
  {
    hide PutAll, UpdateRun, Admissible, Flatten;
    var m := Flatten(chunks);
    UpdateRunIsPutAll(f, Reset(h0), chunks);
    UpdateChunk(f, Reset(h0), m);
    ResetThenPutAll(f, h0, m);
  }

  /** `sha256_begin`: a byte loop over the whole message from a reset context, the length stored at the end. */
  function Begin<H>(f: (H, seq<byte>) -> H, h0: H, m: seq<byte>): (d: Ctx<H>)
    requires |m| < TWO_32
    ensures d.Wf()
  {
    PutAll(f, Reset(h0), m).(msglen := |m|)
  }

  /** It reaches the context of a reset followed by one update, stale buffer bytes included. */
  lemma BeginIsUpdate<H>(f: (H, seq<byte>) -> H, h0: H, m: seq<byte>)
    requires |m| < TWO_32
    ensures Begin(f, h0, m) == UpdateWith(f, Reset(h0), m)
    ensures Holds(f, h0, Begin(f, h0, m), m)
  {
    hide PutAll, UpdateWith, Holds;
    UpdateChunk(f, Reset(h0), m);
    PutAllLength(f, Reset(h0), m, |m|);
    ResetThenPutAll(f, h0, m);
  }

  // Padding.

  lemma ZeroBytesAfter(head: nat, tail: nat)
    requires head % BLOCK_SIZE == 0 && tail < BLOCK_SIZE
    ensures ZeroBytes(head + tail) == if tail < 56 then 55 - tail else 119 - tail
  {
    assert (head + tail) % BLOCK_SIZE == tail;
  }

  /** The message ends in a block with room for the length: one last block. */
  lemma PadOneBlock(head: seq<byte>, tail: seq<byte>)
    requires |head| % BLOCK_SIZE == 0 && |tail| < 56
    ensures Pad(head + tail) == head + (Marked(tail)[..56] + LengthField(|head + tail|))
  {
    hide ZeroBytes, LengthField;
    ZeroBytesAfter(|head|, |tail|);
    assert Marked(tail)[..56] == tail + [0x80] + Zeros(55 - |tail|);
  }

  /** No room for the length: the marker block, then a block of zeros and the length. */
  lemma PadTwoBlocks(head: seq<byte>, tail: seq<byte>)
    requires |head| % BLOCK_SIZE == 0 && 56 <= |tail| < BLOCK_SIZE
    ensures Pad(head + tail) == head + Marked(tail) + (Zeros(BLOCK_SIZE)[..56] + LengthField(|head + tail|))
  {
    hide ZeroBytes, LengthField;
    ZeroBytesAfter(|head|, |tail|);
    assert Zeros(119 - |tail|) == Zeros(BLOCK_SIZE - |tail| - 1) + Zeros(BLOCK_SIZE)[..56];
  }

  lemma FoldTwoSteps<H>(f: (H, seq<byte>) -> H, h: H, data: seq<byte>, b1: seq<byte>, b2: seq<byte>)
    requires |data| % BLOCK_SIZE == 0 && |b1| == |b2| == BLOCK_SIZE
    ensures Fold(f, h, data + b1 + b2) == f(f(Fold(f, h, data), b1), b2)
  {
    hide Fold;
    FoldStep(f, h, data, b1);
    assert |data + b1| % BLOCK_SIZE == 0;
    FoldStep(f, h, data + b1, b2);
  }

  /** `sha256_finish` compresses exactly the FIPS padding of the message the context stands for. */
  lemma FinishPads<H>(f: (H, seq<byte>) -> H, h0: H, c: Ctx<H>, m: seq<byte>)
    requires Holds(f, h0, c, m) && c.msglen == |m|
    ensures |Pad(m)| % BLOCK_SIZE == 0
    ensures Finish(f, c).hash == Fold(f, h0, Pad(m))
  {
    hide Fold, Pad, LengthField;
    PadLength(|m|);
    var head, tail, size := m[..Whole(|m|)], c.block[..c.index], LengthField(|m|);
    assert m == head + tail;
    if c.index >= 56 {
      var last := Zeros(BLOCK_SIZE)[..56] + size;
      PadTwoBlocks(head, tail);
      FoldTwoSteps(f, h0, head, Marked(tail), last);
      assert Finish(f, c).hash == f(f(c.hash, Marked(tail)), last);
    } else {
      var last := Marked(tail)[..56] + size;
      PadOneBlock(head, tail);
      FoldStep(f, h0, head, last);
      assert Finish(f, c).hash == f(c.hash, last);
    }
  }
}
