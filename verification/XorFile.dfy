/** The position-keyed reader of main_block_dexor.c: a block file is stored with each byte XORed by the key byte of its
    position, and every read decodes what it delivers in place. */
module XorFile {
  import opened Bytes
  import Dca
  import Writers

  const XOR_KEY_SIZE: nat := 8

  type Key = k: seq<byte> | |k| == XOR_KEY_SIZE witness seq(XOR_KEY_SIZE, i => 0)

  function Xor(a: byte, b: byte): byte {
    a ^ b
  }

  lemma XorTwice(a: byte, b: byte)
    ensures Xor(Xor(a, b), b) == a
  {}

  function KeyAt(key: Key, enable: bool, at: nat): byte {
    if enable then key[at % XOR_KEY_SIZE] else 0
  }

  /** The whole file decoded. */
  function Decode(data: seq<byte>, key: Key, enable: bool): (d: seq<byte>)
    ensures |d| == |data|
    ensures forall i :: 0 <= i < |data| ==> d[i] == Xor(data[i], KeyAt(key, enable, i))
  {
    seq(|data|, i requires 0 <= i < |data| => Xor(data[i], KeyAt(key, enable, i)))
  }

  lemma DecodeTwice(data: seq<byte>, key: Key, enable: bool)
    ensures Decode(Decode(data, key, enable), key, enable) == data
  {
    hide Xor, KeyAt;
    var d := Decode(data, key, enable);
    forall i | 0 <= i < |data|
      ensures Decode(d, key, enable)[i] == data[i]
    {
      XorTwice(data[i], KeyAt(key, enable, i));
    }
  }

  lemma XorZero(a: byte)
    ensures Xor(a, 0) == a && Xor(0, a) == a
  {}

  /** Byte `i` is XORed by byte `i` modulo 8 of the key. */
  lemma DecodedByte(data: seq<byte>, key: Key, i: nat)
    requires i < |data|
    ensures Decode(data, key, true)[i] == data[i] ^ key[i % 8]
  {}

  /** Eight zero bytes decode to the key itself. */
  lemma ZerosDecodeToKey(key: Key)
    ensures Decode(Zeros(8), key, true) == key
  {
    hide Xor;
    forall i | 0 <= i < 8
      ensures Decode(Zeros(8), key, true)[i] == key[i]
    {
      XorZero(key[i]);
    }
  }

  lemma DecodeDisabled(data: seq<byte>, key: Key)
    ensures Decode(data, key, false) == data
  {
    hide Xor;
    forall i | 0 <= i < |data|
      ensures Decode(data, key, false)[i] == data[i]
    {
      XorZero(data[i]);
    }
  }

  /** Counting from the position's residue visits the same key bytes as counting from the position. */
  lemma Phase(key: Key, pos: nat, i: nat)
    ensures KeyAt(key, true, pos % XOR_KEY_SIZE + i) == KeyAt(key, true, pos + i)
  {}

  /** `n` bytes from `pos`; nothing when `n` is zero, even beyond the end. */
  function Slice(s: seq<byte>, pos: nat, n: nat): (t: seq<byte>)
    requires n > 0 ==> pos + n <= |s|
    ensures |t| == n
  {
    if n == 0 then [] else s[pos..pos + n]
  }

  /** `s` with `bytes` in place of what was at `at`. */
  function Splice(s: seq<byte>, at: nat, bytes: seq<byte>): (t: seq<byte>)
    requires at + |bytes| <= |s|
    ensures |t| == |s| && t[at..at + |bytes|] == bytes
  {
    s[..at] + bytes + s[at + |bytes|..]
  }

  lemma SplicedTail(s: seq<byte>, start: nat, at: nat, bytes: seq<byte>)
    requires start <= at && at + |bytes| <= |s|
    ensures Splice(s, at, Slice(bytes, 0, |bytes|))[start..at + |bytes|] == s[start..at] + bytes
  {}

  class BtcFile {
    const data: seq<byte>
    const key: Key
    const enable: bool
    /** How many bytes the stream can deliver to each `fread`, in the order of the calls; nothing is known of it. */
    const delivers: nat -> nat
    var pos: nat
    var failed: bool
    var calls: nat

    constructor (data: seq<byte>, key: Key, enable: bool, delivers: nat -> nat)
      ensures this.data == data && this.key == key && this.enable == enable && this.delivers == delivers
      ensures pos == 0 && !failed && calls == 0
    {
      this.data, this.key, this.enable, this.delivers := data, key, enable, delivers;
      pos, failed, calls := 0, false, 0;
    }

    function Available(): nat
      reads this
    {
      if pos < |data| then |data| - pos else 0
    }

    /** The stream delivers all that was asked for, or stops at the end of the file, or stops at an error. */
    method Fread(buf: array<byte>, at: nat, nb: nat) returns (r: nat)
      requires at + nb <= buf.Length
      modifies this`pos, this`failed, this`calls, buf
      ensures r == Dca.Min(Dca.Min(nb, old(Available())), delivers(old(calls)))
      ensures pos == old(pos) + r && calls == old(calls) + 1
      ensures failed <==> old(failed) || r < Dca.Min(nb, old(Available()))
      ensures buf[..] == Splice(old(buf[..]), at, Slice(data, old(pos), r))
    {
      var most := Dca.Min(nb, Available());
      r := Dca.Min(most, delivers(calls));
      Writers.CopyIn(buf, at, Slice(data, pos, r));
      failed := failed || r < most;
      pos, calls := pos + r, calls + 1;
    }

    /** A read succeeds exactly when it delivered all that was asked for, and then its bytes are those of the decoded
        file at the position. A short read leaves the stored bytes undecoded. */
    method Read(buf: array<byte>, at: nat, nb: nat) returns (ok: bool)
      requires at + nb <= buf.Length
      modifies this`pos, this`failed, this`calls, buf
      ensures old(pos) <= pos <= old(pos) + nb && pos - old(pos) <= old(Available())
      ensures ok <==> nb <= old(Available()) && nb <= delivers(old(calls))
      ensures ok <==> pos == old(pos) + nb
      ensures calls == old(calls) + 1
      ensures failed <==> old(failed) || pos - old(pos) < Dca.Min(nb, old(Available()))
      ensures buf[..] == Splice(old(buf[..]), at,
                                Slice(if ok then Decode(data, key, enable) else data, old(pos), pos - old(pos)))
    {
      hide Xor;
      ghost var start := pos;
      var n := pos % XOR_KEY_SIZE;
      var r := Fread(buf, at, nb);
      if r != nb {
        return false;
      }
      if enable {
        Unmask(buf, at, n, r);
        KeyedIsSlice(data, key, start, r);
      } else {
        DecodeDisabled(data, key);
      }
      return true;
    }

    /** The decoding loop of a read. */
    method Unmask(buf: array<byte>, at: nat, n: nat, r: nat)
      requires at + r <= buf.Length
      modifies buf
      ensures buf[..] == Splice(old(buf[..]), at, Keyed(old(buf[at..at + r]), key, n))
    {
      hide Xor, KeyAt;
      ghost var raw := buf[..];
      for i := 0 to r
        invariant forall k :: at <= k < at + i ==> buf[k] == Xor(raw[k], KeyAt(key, true, n + (k - at)))
        invariant forall k :: 0 <= k < buf.Length && !(at <= k < at + i) ==> buf[k] == raw[k]
      {
        buf[at + i] := Xor(buf[at + i], KeyAt(key, true, n + i));
      }
    }

    /** Any run of seeks and reads, up to the first read that fails: what the reads deliver is what they point at in the
        decoded file. It fails exactly when a read leaves the file or the stream does not deliver it. */
    method Replay(ops: seq<Op>) returns (ok: bool, out: seq<byte>)
      modifies this`pos, this`failed, this`calls
      ensures ok ==> InFile(|data|, old(pos), ops) && pos == Ended(old(pos), ops)
      ensures ok ==> out == Delivered(Decode(data, key, enable), old(pos), ops)
      ensures ok <==> InFile(|data|, old(pos), ops) && Served(ops, old(calls))
      decreases |ops|
    {
      hide Decode;
      if ops == [] {
        return true, [];
      }
      var first: seq<byte>;
      ok, first := Do(ops[0]);
      if !ok {
        return false, [];
      }
      var rest: seq<byte>;
      ok, rest := Replay(ops[1..]);
      out := first + rest;
    }

    /** The stream delivers every read of the run, the first of them being call number `k`. */
    predicate Served(ops: seq<Op>, k: nat)
      decreases |ops|
    {
      ops != [] ==>
        (ops[0].Fetch? ==> ops[0].nb <= delivers(k)) && Served(ops[1..], if ops[0].Fetch? then k + 1 else k)
    }

    method Do(op: Op) returns (ok: bool, out: seq<byte>)
      modifies this`pos, this`failed, this`calls
      ensures ok ==> pos == Moved(old(pos), op) && Inside(|data|, old(pos), op)
      ensures ok ==> out == if op.Fetch? then Slice(Decode(data, key, enable), old(pos), op.nb) else []
      ensures ok <==> Inside(|data|, old(pos), op) && (op.Fetch? ==> op.nb <= delivers(old(calls)))
      ensures calls == old(calls) + if op.Fetch? then 1 else 0
    {
      hide Decode;
      if op.Seek? {
        pos := op.to;
        return true, [];
      }
      var buf := new byte[op.nb](_ => 0);
      ok := Read(buf, 0, op.nb);
      out := buf[..];
    }

    /** The middle of reading all, from the start of the file: what the read returns is ignored. */
    method AppendFrom(buf: Dca.Container, size: nat) returns (ok: bool)
      requires Writers.IsBuffer(buf) && Writers.HasAddresses(buf, size) && size == |data| && pos == 0 && !failed
      modifies this`pos, this`failed, this`calls, buf, buf.mod, buf.memory
      ensures Writers.IsBuffer(buf)
      ensures buf.memory.asked == old(buf.memory.asked) + if old(buf.Fits(size)) then 0 else 1
      ensures ok <==> buf.memory.Granted(old(buf.memory.asked), buf.memory.asked)
      ensures ok ==> (failed <==> delivers(old(calls)) < size)
      ensures ok && !failed ==> buf.Contents() == old(buf.Contents()) + Decode(data, key, enable)
    {
      hide Decode, Slice, Splice;
      ghost var before := buf.Contents();
      var at: nat;
      ok, at := Writers.BufferConsume(buf, size);
      if !ok {
        return;
      }
      ghost var consumed := buf.mod[..];
      SplicedTail(consumed, buf.offset, at, Decode(data, key, enable));
      var done := Read(buf.mod, at, size);
      assert done ==> buf.mod[..][buf.offset..at + size] == before + Decode(data, key, enable);
      assert buf.Contents() == buf.mod[..][buf.offset..at + size];
    }

    /** Reading all restores the position and appends the whole decoded file, unless it reports an error, exactly when
        the stream stops short. `ok` is false exactly when the allocator refused to let the buffer grow. */
    method ReadAll(buf: Dca.Container) returns (ok: bool, error: bool)
      requires Writers.IsBuffer(buf) && Writers.HasAddresses(buf, |data|)
      modifies this`pos, this`failed, this`calls, buf, buf.mod, buf.memory
      ensures Writers.IsBuffer(buf) && pos == old(pos)
      ensures buf.memory.asked == old(buf.memory.asked) + if old(buf.Fits(|data|)) then 0 else 1
      ensures ok <==> buf.memory.Granted(old(buf.memory.asked), buf.memory.asked)
      ensures ok ==> (error <==> delivers(old(calls)) < |data|)
      ensures ok && !error ==> buf.Contents() == old(buf.Contents()) + Decode(data, key, enable)
    {
      var saved := pos;
      pos := |data|;
      var size := pos;
      pos, failed := 0, false;
      ok := AppendFrom(buf, size);
      pos := saved;
      error := failed;
    }
  }

  /** Each byte XORed by the key byte of its index, counted from `n`. */
  function Keyed(s: seq<byte>, key: Key, n: nat): (t: seq<byte>)
    ensures |t| == |s|
    ensures forall i :: 0 <= i < |s| ==> t[i] == Xor(s[i], KeyAt(key, true, n + i))
  {
    seq(|s|, i requires 0 <= i < |s| => Xor(s[i], KeyAt(key, true, n + i)))
  }

  /** Keying `nb` stored bytes at `pos` from the residue of the position gives those bytes of the decoded file. */
  lemma KeyedIsSlice(data: seq<byte>, key: Key, pos: nat, nb: nat)
    requires nb > 0 ==> pos + nb <= |data|
    ensures Keyed(Slice(data, pos, nb), key, pos % XOR_KEY_SIZE) == Slice(Decode(data, key, true), pos, nb)
  {
    hide Xor, KeyAt, Decode, Keyed;
    forall i | 0 <= i < nb
      ensures Keyed(Slice(data, pos, nb), key, pos % XOR_KEY_SIZE)[i] == Slice(Decode(data, key, true), pos, nb)[i]
    {
      Phase(key, pos, i);
      assert Slice(data, pos, nb)[i] == data[pos + i];
    }
  }

  // Runs of seeks and reads.

  datatype Op = Seek(to: nat) | Fetch(nb: nat)

  function Moved(pos: nat, op: Op): nat {
    match op
    case Seek(to) => to
    case Fetch(nb) => pos + nb
  }

  predicate Inside(size: nat, pos: nat, op: Op) {
    op.Fetch? && op.nb > 0 ==> pos + op.nb <= size
  }

  /** Every read of the run stays inside a file of `size` bytes. */
  predicate InFile(size: nat, pos: nat, ops: seq<Op>)
    decreases |ops|
  {
    ops != [] ==> Inside(size, pos, ops[0]) && InFile(size, Moved(pos, ops[0]), ops[1..])
  }

  function Ended(pos: nat, ops: seq<Op>): nat
    decreases |ops|
  {
    if ops == [] then pos else Ended(Moved(pos, ops[0]), ops[1..])
  }

  /** The bytes of `d` that the reads of the run point at, one read after the other. */
  function Delivered(d: seq<byte>, pos: nat, ops: seq<Op>): seq<byte>
    requires InFile(|d|, pos, ops)
    decreases |ops|
  {
    if ops == [] then []
    else (if ops[0].Fetch? then Slice(d, pos, ops[0].nb) else []) + Delivered(d, Moved(pos, ops[0]), ops[1..])
  }

  lemma SliceSplit(s: seq<byte>, pos: nat, a: nat, b: nat)
    requires pos + a + b <= |s|
    ensures Slice(s, pos, a) + Slice(s, pos + a, b) == Slice(s, pos, a + b)
  {}

  /** Without seeks, how a stretch is cut into reads does not show in the bytes. */
  lemma {:induction false} PiecesTile(d: seq<byte>, pos: nat, ops: seq<Op>)
    requires forall op :: op in ops ==> op.Fetch?
    requires Ended(pos, ops) <= |d|
    ensures pos <= Ended(pos, ops) && InFile(|d|, pos, ops)
    ensures Delivered(d, pos, ops) == Slice(d, pos, Ended(pos, ops) - pos)
    decreases |ops|
  {
    hide Slice;
    if ops == [] {
    } else {
      var nb := ops[0].nb;
      PiecesTile(d, pos + nb, ops[1..]);
      SliceSplit(d, pos, nb, Ended(pos, ops) - pos - nb);
    }
  }
}
