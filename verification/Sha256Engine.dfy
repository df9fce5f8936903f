/** The mutable context of sha256.c and the digests of sha256.h. Every method refines a function of `Stream`
    on the context's value; the digests come out as SHA-256 of FIPS 180-4. */
module Sha256Engine {
  import opened Bytes
  import opened Fips180
  import opened Stream
  import opened Sha256Block

  class Context {
    const hash: array<Word>
    const block: array<byte>
    var index: nat
    var msglen: nat

    ghost predicate Valid()
      reads this, hash, block
    {
      hash.Length == 8 && block.Length == BLOCK_SIZE && index < BLOCK_SIZE && msglen < TWO_32
    }

    ghost function View(): (c: Ctx<Words>)
      reads this, hash, block
      requires Valid()
      ensures c.Wf()
    {
      Ctx(WordsOf(hash[..]), block[..], index, msglen)
    }

    /** A zeroed context, as `sha256_ctx_t ctx = {0}` makes one. */
    constructor ()
      ensures Valid() && fresh(hash) && fresh(block)
    {
      hash := new Word[8](_ => 0);
      block := new byte[64](_ => 0);
      index, msglen := 0, 0;
    }

    /** Structure assignment. */
    method CopyFrom(other: Context)
      requires Valid() && other.Valid() && other.hash != hash && other.block != block
      modifies this, hash, block
      ensures Valid() && View() == old(other.View())
    {
      forall i | 0 <= i < 8 {
        hash[i] := other.hash[i];
      }
      forall i | 0 <= i < BLOCK_SIZE {
        block[i] := other.block[i];
      }
      index, msglen := other.index, other.msglen;
      assert hash[..] == other.hash[..] && block[..] == other.block[..];
    }

    method Submit()
      requires hash.Length == 8 && block.Length == BLOCK_SIZE && msglen < TWO_32
      modifies this`index, hash
      ensures Valid() && index == 0
      ensures WordsOf(hash[..]) == Compress(WordsOf(old(hash[..])), old(block[..]))
    {
      SolveBlock(block, hash);
      index := 0;
    }

    method FillZeros()
      requires hash.Length == 8 && block.Length == BLOCK_SIZE && index <= BLOCK_SIZE
      modifies block
      ensures block[..] == old(block[..index]) + Zeros(BLOCK_SIZE - index)
    {
      forall i | index <= i < BLOCK_SIZE {
        block[i] := 0;
      }
    }

    method PutByte(b: byte)
      requires Valid()
      modifies this`index, hash, block
      ensures Valid() && View() == Put(Compress, old(View()), b)
    {
      hide Compress;
      block[index] := b;
      index := index + 1;
      assert block[..] == old(block[..])[old(index) := b];
      if index == BLOCK_SIZE {
        Submit();
      }
    }

    method PushBlock(mem: Memory, pos: nat)
      requires Valid()
      modifies this`index, hash, block
      ensures Valid() && View() == Stream.PushBlock(Compress, old(View()), Slice(mem, pos, BLOCK_SIZE))
    {
      hide Compress, Slice;
      forall i | 0 <= i < BLOCK_SIZE {
        block[i] := mem(pos + i);
      }
      assert block[..] == Slice(mem, pos, BLOCK_SIZE);
      Submit();
    }

    method Reset()
      requires Valid()
      modifies this, hash, block
      ensures Valid() && View() == Stream.Reset(H0)
    {
      forall i | 0 <= i < BLOCK_SIZE {
        block[i] := 0;
      }
      index, msglen := 0, 0;
      hash[0], hash[1], hash[2], hash[3] := H0.a, H0.b, H0.c, H0.d;
      hash[4], hash[5], hash[6], hash[7] := H0.e, H0.f, H0.g, H0.h;
      assert block[..] == Zeros(BLOCK_SIZE);
    }

    /** The first loop of `sha256_update`: fill up a partly filled block, and go on past it. */
    method Resume(mem: Memory, len: nat) returns (i: nat, bound: nat)
      requires Valid()
      modifies this`index, hash, block
      ensures Valid() && (i, bound) == ResumeEnd(old(index), 0, len)
      ensures View() == PutAll(Compress, old(View()), Slice(mem, 0, i))
    {
      hide Compress, PutAll;
      i, bound := 0, len;
      ghost var c, level := View(), index;
      PutNothing(Compress, c, mem, 0);
      while i < bound
        invariant Valid() && View() == PutAll(Compress, c, Slice(mem, 0, i))
        invariant ResumeEnd(index, i, bound) == ResumeEnd(level, 0, len)
        decreases if i < bound then bound - i else 0
      {
        PutAllStep(Compress, c, mem, 0, i);
        PutByte(mem(i));
        if index == 0 {
          bound := bound - 1 - i;
        }
        i := i + 1;
      }
    }

    /** The second loop: whole blocks straight from the message. */
    method PushWhole(mem: Memory, from: nat, len: nat) returns (pos: nat, rest: nat)
      requires Valid()
      modifies this`index, hash, block
      ensures Valid() && pos == from + len / BLOCK_SIZE * BLOCK_SIZE && rest == len % BLOCK_SIZE
      ensures View() == PushBlocks(Compress, old(View()), mem, from, len)
    {
      hide Compress;
      pos, rest := from, len;
      ghost var c, n := View(), 0;
      while rest >= BLOCK_SIZE
        invariant Valid() && n >= 0 && pos == from + n * BLOCK_SIZE && len == n * BLOCK_SIZE + rest
        invariant PushBlocks(Compress, View(), mem, pos, rest) == PushBlocks(Compress, c, mem, from, len)
        decreases rest
      {
        PushBlock(mem, pos);
        pos := pos + BLOCK_SIZE;
        rest := rest - BLOCK_SIZE;
        n := n + 1;
      }
    }

    /** The third loop: the bytes from `i` to `bound`, taken at `pos`. */
    method PutRest(mem: Memory, pos: nat, i: nat, bound: nat)
      requires Valid()
      modifies this`index, hash, block
      ensures Valid()
      ensures View() == PutAll(Compress, old(View()), Slice(mem, pos, if i < bound then bound - i else 0))
    {
      hide Compress, Put, PutAll;
      ghost var c := View();
      PutNothing(Compress, c, mem, pos);
      var k := i;
      while k < bound
        invariant i <= k && (i < bound ==> k <= bound)
        invariant i >= bound ==> k == i
        invariant Valid() && View() == PutAll(Compress, c, Slice(mem, pos, k - i))
      {
        PutAllStep(Compress, c, mem, pos, k - i);
        PutByte(mem(pos + (k - i)));
        k := k + 1;
      }
    }

    method Update(mem: Memory, len: nat) returns (ec: Code)
      requires Valid() && len < TWO_32
      modifies this, hash, block
      ensures Valid() && (View(), ec) == Stream.Update(Compress, old(View()), mem, len)
    {
      hide Compress, PutAll, PushBlocks, ResumeEnd;
      if len == 0 {
        return Ok;
      }
      if (msglen + len) % TWO_32 < msglen {
        return Overflow;
      }
      msglen := msglen + len;
      var i, bound := 0, len;
      PutNothing(Compress, View(), mem, 0);
      if index > 0 {
        i, bound := Resume(mem, len);
      }
      var pos, rest := PushWhole(mem, i, bound);
      PutRest(mem, pos, i, rest);
      return Ok;
    }

    method Begin(msg: seq<byte>)
      requires Valid() && |msg| < TWO_32
      modifies this, hash, block
      ensures Valid() && View() == Stream.Begin(Compress, H0, msg)
    {
      hide Compress, PutAll;
      Reset();
      ghost var c := View();
      PutNothing(Compress, c, Pointer(msg), 0);
      assert msg[..0] == [];
      for i := 0 to |msg|
        invariant Valid() && View() == PutAll(Compress, c, msg[..i])
      {
        PutAllNext(Compress, c, msg, i);
        PutByte(msg[i]);
      }
      assert msg[..|msg|] == msg;
      msglen := |msg|;
    }

    /** The last eight bytes of the block become the bit length, most significant byte first. */
    method StoreLength(bitlen: nat)
      requires block.Length == BLOCK_SIZE && bitlen == 8 * msglen
      modifies block
      ensures block[..] == old(block[..56]) + LengthField(msglen)
    {
      hide LengthField, Byte;
      LengthBytes(msglen);
      block[56] := Byte(bitlen / 0x100_0000_0000_0000 % 256);
      block[57] := Byte(bitlen / 0x1_0000_0000_0000 % 256);
      block[58] := Byte(bitlen / 0x100_0000_0000 % 256);
      block[59] := Byte(bitlen / 0x1_0000_0000 % 256);
      block[60] := Byte(bitlen / 0x100_0000 % 256);
      block[61] := Byte(bitlen / 0x1_0000 % 256);
      block[62] := Byte(bitlen / 0x100 % 256);
      block[63] := Byte(bitlen % 256);
    }

    method Finish()
      requires Valid()
      modifies this, hash, block
      ensures Valid() && View() == Stream.Finish(Compress, old(View()))
    {
      hide Compress, LengthField, Zeros;
      var bitlen := 8 * msglen;
      ghost var marked := Marked(block[..index]);
      if index >= 56 {
        block[index] := 0x80;
        index := index + 1;
        FillZeros();
        assert block[..] == marked;
        Submit();
      } else {
        block[index] := 0x80;
        index := index + 1;
      }
      FillZeros();
      assert old(index) >= 56 ==> block[..] == Zeros(BLOCK_SIZE);
      assert old(index) < 56 ==> block[..] == marked;
      StoreLength(bitlen);
      Submit();
    }

    method StoreWord(buf: array<byte>, dst: nat, w: Word)
      requires dst + 4 <= buf.Length
      modifies buf
      ensures buf[..] == old(buf[..])[..dst] + WordBytes(w) + old(buf[..])[dst + 4..]
    {
      ghost var s := WordBytes(w);
      buf[dst], buf[dst + 1] := ((w >> 24) & 0xFF) as byte, ((w >> 16) & 0xFF) as byte;
      buf[dst + 2], buf[dst + 3] := ((w >> 8) & 0xFF) as byte, (w & 0xFF) as byte;
      assert buf[dst..dst + 4] == s;
    }

    method Result(buf: array<byte>)
      requires Valid() && buf.Length >= 32 && buf != block
      modifies buf
      ensures buf[..] == Encode(View().hash) + old(buf[32..])
    {
      hide WordBytes, WordsOf, Encode, Partly;
      ghost var words, before := hash[..], buf[..];
      NothingWritten(words, before);
      var dst := 0;
      for i := 0 to 8
        invariant dst == 4 * i && hash[..] == words
        invariant buf[..] == Partly(words, before, i)
      {
        OneWordOn(words, before, i);
        StoreWord(buf, dst, hash[i]);
        dst := dst + 4;
      }
      AllWritten(words, before);
    }
  }

  /** Finishing a context that stands for `m` delivers the SHA-256 of `m`. */
  method FinishInto(ctx: Context, buf: array<byte>, ghost m: seq<byte>)
    requires ctx.Valid() && buf.Length >= 32 && buf != ctx.block
    requires Holds(Compress, H0, ctx.View(), m) && ctx.msglen == |m|
    modifies ctx, ctx.hash, ctx.block, buf
    ensures ctx.Valid() && buf[..] == Sha256(m) + old(buf[32..])
  {
    hide Compress, Stream.Finish, Holds, Encode, Fold, Pad;
    FinishPads(Compress, H0, ctx.View(), m);
    ctx.Finish();
    ctx.Result(buf);
  }

  /** Reset, then one update: the context stands for the message. */
  method Absorb(ctx: Context, mem: Memory, len: nat) returns (ec: Code)
    requires ctx.Valid() && len < TWO_32
    modifies ctx, ctx.hash, ctx.block
    ensures ec == Ok && ctx.Valid() && ctx.msglen == len && Holds(Compress, H0, ctx.View(), Slice(mem, 0, len))
    ensures ctx.View() == PutAll(Compress, Stream.Reset(H0).(msglen := len), Slice(mem, 0, len))
  {
    hide Compress, PutAll, Holds, Stream.Update;
    ctx.Reset();
    UpdateIsPutAll(Compress, ctx.View(), mem, len);
    ResetThenPutAll(Compress, H0, Slice(mem, 0, len));
    ec := ctx.Update(mem, len);
  }

  /** `sha256_digest` is SHA-256 for every length its 32-bit parameter can hold. */
  method Digest(mem: Memory, len: nat, buf: array<byte>) returns (ec: Code)
    requires len < TWO_32 && buf.Length >= 32
    modifies buf
    ensures ec == Ok && buf[..] == Sha256(Slice(mem, 0, len)) + old(buf[32..])
  {
    hide Compress, PutAll, Holds, Sha256;
    var ctx := new Context();
    ec := Absorb(ctx, mem, len);
    if ec == Ok {
      FinishInto(ctx, buf, Slice(mem, 0, len));
    }
  }

  /** `hash256_digest` hashes the 32-byte digest again. */
  method DoubleDigest(mem: Memory, len: nat, buf: array<byte>) returns (ec: Code)
    requires len < TWO_32 && buf.Length >= 32
    modifies buf
    ensures ec == Ok && buf[..] == Sha256(Sha256(Slice(mem, 0, len))) + old(buf[32..])
  {
    hide Sha256;
    var tmp := new byte[32];
    ec := Digest(mem, len, tmp);
    ghost var first := Sha256(Slice(mem, 0, len));
    assert tmp[..] == first;
    SliceOfPointer(first);
    if ec == Ok {
      ec := Digest(Pointer(tmp[..]), 32, buf);
    }
  }

  /** The bytes of the first `n` words. */
  function EncodedWords(hash: seq<Word>, n: nat): (d: seq<byte>)
    requires n <= |hash|
    ensures |d| == 4 * n
  {
    if n == 0 then [] else EncodedWords(hash, n - 1) + WordBytes(hash[n - 1])
  }

  /** A buffer into which the first `n` words have been written. */
  function Partly(hash: seq<Word>, before: seq<byte>, n: nat): (d: seq<byte>)
    requires n <= |hash| && 4 * n <= |before|
    ensures |d| == |before|
  {
    EncodedWords(hash, n) + before[4 * n..]
  }

  lemma NothingWritten(hash: seq<Word>, before: seq<byte>)
    ensures Partly(hash, before, 0) == before
  {}

  lemma OneWordOn(hash: seq<Word>, before: seq<byte>, n: nat)
    requires n < |hash| && 4 * n + 4 <= |before|
    ensures
      var d := Partly(hash, before, n);
      Partly(hash, before, n + 1) == d[..4 * n] + WordBytes(hash[n]) + d[4 * n + 4..]
  {
    hide WordBytes;
    assert Partly(hash, before, n)[4 * n + 4..] == before[4 * (n + 1)..];
  }

  lemma AllWritten(hash: seq<Word>, before: seq<byte>)
    requires |hash| == 8 && |before| >= 32
    ensures Partly(hash, before, 8) == Encode(WordsOf(hash)) + before[32..]
  {
    hide Encode, WordsOf;
    EncodedInOrder(hash);
  }

  lemma EncodedInOrder(hash: seq<Word>)
    requires |hash| == 8
    ensures EncodedWords(hash, 8) == Encode(WordsOf(hash))
  {
    hide WordBytes;
    assert EncodedWords(hash, 1) == WordBytes(hash[0]);
    assert EncodedWords(hash, 3) == EncodedWords(hash, 2) + WordBytes(hash[2]);
    assert EncodedWords(hash, 5) == EncodedWords(hash, 4) + WordBytes(hash[4]);
    assert EncodedWords(hash, 7) == EncodedWords(hash, 6) + WordBytes(hash[6]);
  }

  /** A quotient by a power of 256 is reached one byte at a time. */
  lemma QuotientsByByte(v: nat)
    ensures v / 0x100 / 256 == v / 0x1_0000 && v / 0x1_0000 / 256 == v / 0x100_0000
    ensures v / 0x100_0000 / 256 == v / 0x1_0000_0000
  {}

  /** Four bytes of a big-endian number. The width is a variable so that it is unfolded only as far as needed. */
  lemma {:induction false} BigEndianSplit(v: nat, k: nat)
    requires k >= 4
    ensures BigEndian(v, k) == BigEndian(v / 0x1_0000_0000, k - 4)
      + [Byte(v / 0x100_0000 % 256), Byte(v / 0x1_0000 % 256), Byte(v / 0x100 % 256), Byte(v % 256)]
  {
    QuotientsByByte(v);
    var v1, v2, v3, w := v / 0x100, v / 0x1_0000, v / 0x100_0000, v / 0x1_0000_0000;
    assert BigEndian(v3, k - 3) == BigEndian(w, k - 4) + [Byte(v3 % 256)];
    assert BigEndian(v2, k - 2) == BigEndian(v3, k - 3) + [Byte(v2 % 256)];
    assert BigEndian(v1, k - 1) == BigEndian(v2, k - 2) + [Byte(v1 % 256)];
    assert BigEndian(v, k) == BigEndian(v1, k - 1) + [Byte(v % 256)];
  }

  lemma QuotientsByWord(v: nat)
    ensures var w := v / 0x1_0000_0000;
            && w / 0x100 == v / 0x100_0000_0000 && w / 0x1_0000 == v / 0x1_0000_0000_0000
            && w / 0x100_0000 == v / 0x100_0000_0000_0000
  {}

  lemma BigEndian8(v: nat, k: nat)
    requires k == 8
    ensures BigEndian(v, k) == [
      Byte(v / 0x100_0000_0000_0000 % 256), Byte(v / 0x1_0000_0000_0000 % 256),
      Byte(v / 0x100_0000_0000 % 256), Byte(v / 0x1_0000_0000 % 256), Byte(v / 0x100_0000 % 256),
      Byte(v / 0x1_0000 % 256), Byte(v / 0x100 % 256), Byte(v % 256)]
  {
    hide BigEndian, Byte;
    BigEndianSplit(v, k);
    BigEndianSplit(v / 0x1_0000_0000, k - 4);
    QuotientsByWord(v);
  }

  lemma LengthBytes(n: nat)
    ensures var v := 8 * n; LengthField(n) == [
      Byte(v / 0x100_0000_0000_0000 % 256), Byte(v / 0x1_0000_0000_0000 % 256),
      Byte(v / 0x100_0000_0000 % 256), Byte(v / 0x1_0000_0000 % 256), Byte(v / 0x100_0000 % 256),
      Byte(v / 0x1_0000 % 256), Byte(v / 0x100 % 256), Byte(v % 256)]
  {
    BigEndian8(8 * n, 8);
  }
}
