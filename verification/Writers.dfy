/** The writers of bc_utils.h and bc_message.h over the growable byte buffer. `ok` is false when the container could
    not grow; the default failure handler ends the process there, so nothing is claimed about a half-written buffer. */
module Writers {
  import opened Bytes
  import opened Wire
  import Dca

  const NET_ADDR_STRUCT_SIZE: nat := 32
  const MESSAGE_HEADER_STRUCT_SIZE: nat := 24

  /** `nu_buffer_t`: one-byte elements after the 16-byte header. */
  ghost predicate IsBuffer(buf: Dca.Container)
    reads buf
  {
    buf.Valid() && buf.offset == Dca.HEADER_SIZE && buf.elemSize == 1
  }

  /** The address space holds the buffer with `n` more bytes. */
  ghost predicate HasAddresses(buf: Dca.Container, n: nat)
    reads buf
  {
    Dca.HEADER_SIZE + buf.blen + n < TWO_64
  }

  /** The observable state of a buffer, and how many requests its allocator has had. */
  datatype Snapshot = Snapshot(mod: array?<byte>, bcap: nat, contents: seq<byte>, memory: Dca.Allocator, asked: nat) {
    ghost predicate Fits(n: nat) {
      mod != null && |contents| + n <= bcap
    }

    /** From here to `t` requests were made, and `ok` says whether all of them were granted. */
    ghost predicate Leads(t: Snapshot, ok: bool) {
      t.memory == memory && asked <= t.asked && (ok <==> memory.Granted(asked, t.asked))
    }
  }

  ghost function Look(buf: Dca.Container): Snapshot
    requires buf.Valid()
    reads buf, buf.mod, buf.memory
  {
    Snapshot(buf.mod, buf.bcap, buf.Contents(), buf.memory, buf.memory.asked)
  }

  /** A writer of `bytes` leads from `s` to `t`. It fails exactly when the allocator refuses a request of it; when the
      bytes fit it makes none, and it keeps the block. */
  ghost predicate Grew(s: Snapshot, t: Snapshot, bytes: seq<byte>, ok: bool) {
    && s.Leads(t, ok) && (ok ==> t.contents == s.contents + bytes)
    && (s.Fits(|bytes|) ==> ok && t.mod == s.mod && t.bcap == s.bcap && t.asked == s.asked)
  }

  lemma LeadsOn(s: Snapshot, t: Snapshot, u: Snapshot, ok1: bool, ok2: bool)
    requires s.Leads(t, ok1)
    requires if ok1 then t.Leads(u, ok2) else u == t && !ok2
    ensures s.Leads(u, ok2)
  {}

  /** Two writers in a row, the second only after a success of the first. */
  lemma Chain(s: Snapshot, t: Snapshot, u: Snapshot, a: seq<byte>, b: seq<byte>, ok1: bool, ok2: bool)
    requires Grew(s, t, a, ok1)
    requires if ok1 then Grew(t, u, b, ok2) else u == t && !ok2
    ensures Grew(s, u, a + b, ok2)
  {
    LeadsOn(s, t, u, ok1, ok2);
    hide Snapshot.Leads;
    if ok2 {
      assert s.contents + (a + b) == s.contents + a + b;
    }
  }

  method CopyIn(mod: array<byte>, start: nat, bytes: seq<byte>)
    requires start + |bytes| <= mod.Length
    modifies mod
    ensures mod[..] == old(mod[..start]) + bytes + old(mod[start + |bytes|..])
  {
    forall i | 0 <= i < |bytes| {
      mod[start + i] := bytes[i];
    }
  }

  /** `nu_buffer_consume`: `pos` is where the next `n` bytes go. */
  method BufferConsume(buf: Dca.Container, n: nat) returns (ok: bool, pos: nat)
    requires IsBuffer(buf) && HasAddresses(buf, n)
    modifies buf, buf.memory
    ensures buf.memory.asked == old(buf.memory.asked) + if old(buf.Fits(n)) then 0 else 1
    ensures ok <==> buf.memory.Granted(old(buf.memory.asked), buf.memory.asked)
    ensures IsBuffer(buf) && (buf.mod == old(buf.mod) || fresh(buf.mod))
    ensures !ok ==> unchanged(buf)
    ensures old(buf.Fits(n)) ==> ok && buf.mod == old(buf.mod) && buf.bcap == old(buf.bcap)
    ensures ok ==> buf.mod != null && buf.blen == old(buf.blen) + n && pos == buf.offset + old(buf.blen)
    ensures ok ==> buf.offset <= pos && pos + n <= buf.mod.Length && buf.mod[buf.offset..pos] == old(buf.Contents())
  {
    ok, pos := buf.Consume(n);
    if ok {
      assert buf.Contents()[..pos] == buf.mod[buf.offset..buf.offset + pos];
      pos := buf.offset + pos;
    }
  }

  lemma SplicedIn(s: seq<byte>, t: seq<byte>, start: nat, pos: nat, bytes: seq<byte>)
    requires start <= pos && pos + |bytes| <= |s| && t == s[..pos] + bytes + s[pos + |bytes|..]
    ensures t[start..pos + |bytes|] == s[start..pos] + bytes
  {}

  /** `bc_append_bytes`: consume, then copy to the place consumed. */
  method AppendBytes(buf: Dca.Container, bytes: seq<byte>) returns (ok: bool)
    requires IsBuffer(buf) && HasAddresses(buf, |bytes|)
    modifies buf, buf.mod, buf.memory
    ensures IsBuffer(buf) && (buf.mod == old(buf.mod) || fresh(buf.mod))
    ensures ok ==> buf.blen == old(buf.blen) + |bytes|
    ensures Grew(old(Look(buf)), Look(buf), bytes, ok)
  {
    ghost var before := buf.Contents();
    var pos: nat;
    ok, pos := BufferConsume(buf, |bytes|);
    if ok {
      ghost var consumed := buf.mod[..];
      assert consumed[buf.offset..pos] == before;
      CopyIn(buf.mod, pos, bytes);
      SplicedIn(consumed, buf.mod[..], buf.offset, pos, bytes);
      assert buf.Contents() == buf.mod[..][buf.offset..pos + |bytes|];
    }
  }

  /** An integer store of `k` bytes, least significant byte first. */
  method AppendInt(buf: Dca.Container, v: nat, k: nat) returns (ok: bool)
    requires IsBuffer(buf) && HasAddresses(buf, k) && v < Pow256(k)
    modifies buf, buf.mod, buf.memory
    ensures IsBuffer(buf) && (buf.mod == old(buf.mod) || fresh(buf.mod))
    ensures ok ==> buf.blen == old(buf.blen) + |LittleEndian(v, k)|
    ensures Grew(old(Look(buf)), Look(buf), LittleEndian(v, k), ok)
  {
    ok := AppendBytes(buf, LittleEndian(v, k));
  }

  method AppendVarint(buf: Dca.Container, v: nat) returns (ok: bool)
    requires IsBuffer(buf) && HasAddresses(buf, |Varint(v)|) && v < TWO_64
    modifies buf, buf.mod, buf.memory
    ensures IsBuffer(buf) && (buf.mod == old(buf.mod) || fresh(buf.mod))
    ensures ok ==> buf.blen == old(buf.blen) + |Varint(v)|
    ensures Grew(old(Look(buf)), Look(buf), Varint(v), ok)
  {
    hide LittleEndian, Grew;
    if v < 0xFD {
      ok := AppendBytes(buf, [Byte(v)]);
      return;
    }
    if v < 0xFFFF {
      ok := AppendBytes(buf, [0xFD] + LittleEndian(v, 2));
      return;
    }
    if v < 0xFFFF_FFFF {
      ok := AppendBytes(buf, [0xFE] + LittleEndian(v, 4));
      return;
    }
    ok := AppendBytes(buf, [0xFF] + LittleEndian(v, 8));
  }

  /** A size, then that many bytes when there are any. */
  method AppendScript(buf: Dca.Container, script: seq<byte>) returns (ok: bool)
    requires IsBuffer(buf) && HasAddresses(buf, |Script(script)|) && |script| < TWO_64
    modifies buf, buf.mod, buf.memory
    ensures IsBuffer(buf) && (buf.mod == old(buf.mod) || fresh(buf.mod))
    ensures ok ==> buf.blen == old(buf.blen) + |Script(script)|
    ensures Grew(old(Look(buf)), Look(buf), Script(script), ok)
  {
    hide Varint;
    ghost var s := Look(buf);
    ok := AppendVarint(buf, |script|);
    ghost var t, ok1 := Look(buf), ok;
    if ok && |script| > 0 {
      ok := AppendBytes(buf, script);
    }
    Chain(s, t, Look(buf), Varint(|script|), script, ok1, ok);
  }

  method AppendTxInput(buf: Dca.Container, x: TxIn) returns (ok: bool)
    requires IsBuffer(buf) && HasAddresses(buf, |InBytes(x)|) && x.Wf()
    modifies buf, buf.mod, buf.memory
    ensures IsBuffer(buf) && (buf.mod == old(buf.mod) || fresh(buf.mod))
    ensures ok ==> buf.blen == old(buf.blen) + |InBytes(x)|
    ensures Grew(old(Look(buf)), Look(buf), InBytes(x), ok)
  {
    hide Script, LittleEndian, Pow256, Grew;
    Pow256Values();
    ghost var s := Look(buf);
    ok := AppendBytes(buf, x.txid);
    ghost var t, ok1 := Look(buf), ok;
    if ok {
      ok := AppendInt(buf, x.vout, 4);
    }
    Chain(s, t, Look(buf), x.txid, LittleEndian(x.vout, 4), ok1, ok);
    t, ok1 := Look(buf), ok;
    if ok {
      ok := AppendScript(buf, x.script);
    }
    Chain(s, t, Look(buf), x.txid + LittleEndian(x.vout, 4), Script(x.script), ok1, ok);
    t, ok1 := Look(buf), ok;
    if ok {
      ok := AppendInt(buf, x.sequence, 4);
    }
    Chain(s, t, Look(buf), x.txid + LittleEndian(x.vout, 4) + Script(x.script), LittleEndian(x.sequence, 4), ok1, ok);
  }

  method AppendTxOutput(buf: Dca.Container, x: TxOut) returns (ok: bool)
    requires IsBuffer(buf) && HasAddresses(buf, |OutBytes(x)|) && x.Wf()
    modifies buf, buf.mod, buf.memory
    ensures IsBuffer(buf) && (buf.mod == old(buf.mod) || fresh(buf.mod))
    ensures ok ==> buf.blen == old(buf.blen) + |OutBytes(x)|
    ensures Grew(old(Look(buf)), Look(buf), OutBytes(x), ok)
  {
    hide Script, LittleEndian, Pow256, Grew;
    Pow256Values();
    ghost var s := Look(buf);
    ok := AppendInt(buf, x.amount, 8);
    ghost var t, ok1 := Look(buf), ok;
    if ok {
      ok := AppendScript(buf, x.script);
    }
    Chain(s, t, Look(buf), LittleEndian(x.amount, 8), Script(x.script), ok1, ok);
  }

  /** A failure on the way is a failure of the whole. */
  lemma FailedShort(s: Snapshot, t: Snapshot, some: seq<byte>, all: seq<byte>)
    requires Grew(s, t, some, false) && |some| <= |all|
    ensures Grew(s, t, all, false)
  {}

  /** A section up to its `i`-th element. */
  function Upto<T>(f: T -> seq<byte>, xs: seq<T>, i: nat): seq<byte>
    requires i <= |xs|
  {
    Varint(|xs|) + Concat(f, xs[..i])
  }

  lemma UptoEnds<T>(f: T -> seq<byte>, xs: seq<T>)
    ensures Upto(f, xs, 0) == Varint(|xs|) && Upto(f, xs, |xs|) == Section(f, xs)
    ensures |Varint(|xs|)| <= |Section(f, xs)|
  {
    assert xs[..|xs|] == xs;
  }

  lemma {:induction false} ConcatGrows<T>(f: T -> seq<byte>, xs: seq<T>, i: nat)
    requires i <= |xs|
    ensures |Concat(f, xs[..i])| <= |Concat(f, xs)|
    decreases |xs|
  {
    if i == |xs| {
      assert xs[..i] == xs;
    } else {
      ConcatGrows(f, xs[..|xs| - 1], i);
      assert xs[..|xs| - 1][..i] == xs[..i];
    }
  }

  lemma ConcatStep<T>(f: T -> seq<byte>, xs: seq<T>)
    requires xs != []
    ensures Concat(f, xs) == Concat(f, xs[..|xs| - 1]) + f(xs[|xs| - 1])
  {}

  /** One element more of a section. */
  lemma UptoStep<T>(f: T -> seq<byte>, xs: seq<T>, i: nat)
    requires i < |xs|
    ensures Upto(f, xs, i) + f(xs[i]) == Upto(f, xs, i + 1)
    ensures |Upto(f, xs, i)| + |f(xs[i])| == |Upto(f, xs, i + 1)| <= |Section(f, xs)|
  {
    hide Varint;
    assert xs[..i + 1][..i] == xs[..i];
    ConcatStep(f, xs[..i + 1]);
    hide Concat;
    ConcatGrows(f, xs, i + 1);
  }

  function InsUpto(xs: seq<TxIn>, i: nat): seq<byte>
    requires i <= |xs|
  {
    Upto(InBytes, xs, i)
  }

  lemma InsEnds(xs: seq<TxIn>)
    ensures InsUpto(xs, 0) == Varint(|xs|) && InsUpto(xs, |xs|) == InsBytes(xs)
    ensures |Varint(|xs|)| <= |InsBytes(xs)|
  {
    UptoEnds(InBytes, xs);
  }

  lemma InsStep(xs: seq<TxIn>, i: nat)
    requires i < |xs|
    ensures InsUpto(xs, i) + InBytes(xs[i]) == InsUpto(xs, i + 1)
    ensures |InsUpto(xs, i)| + |InBytes(xs[i])| == |InsUpto(xs, i + 1)| <= |InsBytes(xs)|
  {
    UptoStep(InBytes, xs, i);
  }

  method AppendTxInputs(buf: Dca.Container, xs: seq<TxIn>) returns (ok: bool)
    requires IsBuffer(buf) && HasAddresses(buf, |InsBytes(xs)|)
    requires |xs| < TWO_64 - 1 && forall i :: 0 <= i < |xs| ==> xs[i].Wf()
    modifies buf, buf.mod, buf.memory
    ensures IsBuffer(buf) && (buf.mod == old(buf.mod) || fresh(buf.mod))
    ensures ok ==> buf.blen == old(buf.blen) + |InsBytes(xs)|
    ensures Grew(old(Look(buf)), Look(buf), InsBytes(xs), ok)
  {
    hide Varint, InBytes, InsBytes, InsUpto, Grew, Look, TxIn.Wf;
    InsEnds(xs);
    ghost var s := Look(buf);
    ok := AppendVarint(buf, |xs|);
    ghost var t, ok1, sofar := Look(buf), ok, Varint(|xs|);
    var i := 0;
    while ok && i < |xs|
      invariant 0 <= i <= |xs| && IsBuffer(buf) && (buf.mod == old(buf.mod) || fresh(buf.mod))
      invariant ok ==> sofar == InsUpto(xs, i) && buf.blen == old(buf.blen) + |sofar|
      invariant !ok ==> |sofar| <= |InsBytes(xs)|
      invariant Grew(s, Look(buf), sofar, ok)
      decreases |xs| - i, ok
    {
      InsStep(xs, i);
      t, ok1 := Look(buf), ok;
      ok := AppendTxInput(buf, xs[i]);
      Chain(s, t, Look(buf), sofar, InBytes(xs[i]), ok1, ok);
      sofar := sofar + InBytes(xs[i]);
      i := i + 1;
    }
    if !ok {
      FailedShort(s, Look(buf), sofar, InsBytes(xs));
    }
  }

  function OutsUpto(xs: seq<TxOut>, i: nat): seq<byte>
    requires i <= |xs|
  {
    Upto(OutBytes, xs, i)
  }

  lemma OutsEnds(xs: seq<TxOut>)
    ensures OutsUpto(xs, 0) == Varint(|xs|) && OutsUpto(xs, |xs|) == OutsBytes(xs)
    ensures |Varint(|xs|)| <= |OutsBytes(xs)|
  {
    UptoEnds(OutBytes, xs);
  }

  lemma OutsStep(xs: seq<TxOut>, i: nat)
    requires i < |xs|
    ensures OutsUpto(xs, i) + OutBytes(xs[i]) == OutsUpto(xs, i + 1)
    ensures |OutsUpto(xs, i)| + |OutBytes(xs[i])| == |OutsUpto(xs, i + 1)| <= |OutsBytes(xs)|
  {
    UptoStep(OutBytes, xs, i);
  }

  method AppendTxOutputs(buf: Dca.Container, xs: seq<TxOut>) returns (ok: bool)
    requires IsBuffer(buf) && HasAddresses(buf, |OutsBytes(xs)|)
    requires |xs| < TWO_64 - 1 && forall i :: 0 <= i < |xs| ==> xs[i].Wf()
    modifies buf, buf.mod, buf.memory
    ensures IsBuffer(buf) && (buf.mod == old(buf.mod) || fresh(buf.mod))
    ensures ok ==> buf.blen == old(buf.blen) + |OutsBytes(xs)|
    ensures Grew(old(Look(buf)), Look(buf), OutsBytes(xs), ok)
  {
    hide Varint, OutBytes, OutsBytes, OutsUpto, Grew, Look, TxOut.Wf;
    OutsEnds(xs);
    ghost var s := Look(buf);
    ok := AppendVarint(buf, |xs|);
    ghost var t, ok1, sofar := Look(buf), ok, Varint(|xs|);
    var i := 0;
    while ok && i < |xs|
      invariant 0 <= i <= |xs| && IsBuffer(buf) && (buf.mod == old(buf.mod) || fresh(buf.mod))
      invariant ok ==> sofar == OutsUpto(xs, i) && buf.blen == old(buf.blen) + |sofar|
      invariant !ok ==> |sofar| <= |OutsBytes(xs)|
      invariant Grew(s, Look(buf), sofar, ok)
      decreases |xs| - i, ok
    {
      OutsStep(xs, i);
      t, ok1 := Look(buf), ok;
      ok := AppendTxOutput(buf, xs[i]);
      Chain(s, t, Look(buf), sofar, OutBytes(xs[i]), ok1, ok);
      sofar := sofar + OutBytes(xs[i]);
      i := i + 1;
    }
    if !ok {
      FailedShort(s, Look(buf), sofar, OutsBytes(xs));
    }
  }

  method AppendTxLegacy(buf: Dca.Container, tx: Tx) returns (ok: bool)
    requires IsBuffer(buf) && HasAddresses(buf, |TxBytes(tx)|) && tx.Wf()
    modifies buf, buf.mod, buf.memory
    ensures IsBuffer(buf) && (buf.mod == old(buf.mod) || fresh(buf.mod))
    ensures ok ==> buf.blen == old(buf.blen) + |TxBytes(tx)|
    ensures Grew(old(Look(buf)), Look(buf), TxBytes(tx), ok)
  {
    hide InsBytes, OutsBytes, LittleEndian, Pow256, Grew;
    Pow256Values();
    ghost var ins, outs := InsBytes(tx.ins), OutsBytes(tx.outs);
    ghost var version := LittleEndian(tx.version, 4);
    ghost var s := Look(buf);
    ok := AppendInt(buf, tx.version, 4);
    ghost var t, ok1 := Look(buf), ok;
    if ok {
      ok := AppendTxInputs(buf, tx.ins);
    }
    Chain(s, t, Look(buf), version, ins, ok1, ok);
    t, ok1 := Look(buf), ok;
    if ok {
      ok := AppendTxOutputs(buf, tx.outs);
    }
    Chain(s, t, Look(buf), version + ins, outs, ok1, ok);
    t, ok1 := Look(buf), ok;
    if ok {
      ok := AppendInt(buf, tx.lockTime, 4);
    }
    Chain(s, t, Look(buf), version + ins + outs, LittleEndian(tx.lockTime, 4), ok1, ok);
  }

  // Messages.

  /** Room is made first; a refusal of it is the error return, and the only one: it leaves the buffer as it was. */
  method AppendMessageHeader(buf: Dca.Container, h: MessageHeader) returns (ok: bool)
    requires IsBuffer(buf) && HasAddresses(buf, MESSAGE_HEADER_STRUCT_SIZE) && h.Wf()
    modifies buf, buf.mod, buf.memory
    ensures IsBuffer(buf) && (buf.mod == old(buf.mod) || fresh(buf.mod))
    ensures ok ==> buf.Contents() == old(buf.Contents()) + HeaderBytes(h)
    ensures buf.memory.asked == old(buf.memory.asked) + if old(buf.Fits(MESSAGE_HEADER_STRUCT_SIZE)) then 0 else 1
    ensures ok <==> buf.memory.Granted(old(buf.memory.asked), buf.memory.asked)
    ensures !ok ==> unchanged(buf) && buf.Contents() == old(buf.Contents())
    ensures old(buf.Fits(MESSAGE_HEADER_STRUCT_SIZE)) ==> ok && buf.mod == old(buf.mod)
  {
    hide LittleEndian, Pow256, Grew;
    Pow256Values();
    ok := buf.Extend(MESSAGE_HEADER_STRUCT_SIZE);
    if !ok {
      return;
    }
    ghost var size := LittleEndian(h.size, 4);
    ghost var s := Look(buf);
    ok := AppendBytes(buf, h.magic);
    ghost var t, ok1 := Look(buf), ok;
    if ok {
      ok := AppendBytes(buf, h.command);
    }
    Chain(s, t, Look(buf), h.magic, h.command, ok1, ok);
    t, ok1 := Look(buf), ok;
    if ok {
      ok := AppendInt(buf, h.size, 4);
    }
    Chain(s, t, Look(buf), h.magic + h.command, size, ok1, ok);
    t, ok1 := Look(buf), ok;
    if ok {
      ok := AppendBytes(buf, h.checksum);
    }
    Chain(s, t, Look(buf), h.magic + h.command + size, h.checksum, ok1, ok);
    GrewInRoom(s, Look(buf), HeaderBytes(h), ok);
  }

  /** Writing what fits succeeds. */
  lemma GrewInRoom(s: Snapshot, t: Snapshot, bytes: seq<byte>, ok: bool)
    requires Grew(s, t, bytes, ok) && s.Fits(|bytes|)
    ensures ok && t == Snapshot(s.mod, s.bcap, s.contents + bytes, s.memory, s.asked)
  {}

  /** The address writer asks for its padded structure size again: with that much room left nothing moves. */
  method AppendNetAddr(buf: Dca.Container, a: NetAddr) returns (ok: bool)
    requires IsBuffer(buf) && HasAddresses(buf, NET_ADDR_STRUCT_SIZE) && a.Wf()
    modifies buf, buf.mod, buf.memory
    ensures IsBuffer(buf) && (buf.mod == old(buf.mod) || fresh(buf.mod))
    ensures ok ==> buf.blen == old(buf.blen) + |NetAddrBytes(a)|
    ensures !ok ==> unchanged(buf) && buf.Contents() == old(buf.Contents())
    ensures GrewWithin(old(Look(buf)), Look(buf), NetAddrBytes(a), NET_ADDR_STRUCT_SIZE, ok)
  {
    hide LittleEndian, Pow256, Grew;
    Pow256Values();
    ok := buf.Extend(NET_ADDR_STRUCT_SIZE);
    if !ok {
      return;
    }
    ghost var services := LittleEndian(a.services, 8);
    ghost var s := Look(buf);
    ok := AppendInt(buf, a.services, 8);
    ghost var t, ok1 := Look(buf), ok;
    if ok {
      ok := AppendBytes(buf, a.ip);
    }
    Chain(s, t, Look(buf), services, a.ip, ok1, ok);
    t, ok1 := Look(buf), ok;
    if ok {
      ok := AppendInt(buf, a.port, 2);
    }
    Chain(s, t, Look(buf), services + a.ip, LittleEndian(a.port, 2), ok1, ok);
    GrewInRoom(s, Look(buf), NetAddrBytes(a), ok);
  }

  method AppendSigned(buf: Dca.Container, v: int, k: nat) returns (ok: bool)
    requires IsBuffer(buf) && HasAddresses(buf, k)
    modifies buf, buf.mod, buf.memory
    ensures IsBuffer(buf) && (buf.mod == old(buf.mod) || fresh(buf.mod))
    ensures ok ==> buf.blen == old(buf.blen) + |Signed(v, k)|
    ensures Grew(old(Look(buf)), Look(buf), Signed(v, k), ok)
  {
    hide Grew;
    ok := AppendInt(buf, v % Pow256(k), k);
  }

  method AppendVersionHead(buf: Dca.Container, p: VersionPayload) returns (ok: bool)
    requires IsBuffer(buf) && HasAddresses(buf, |VersionHead(p)|) && p.Wf()
    modifies buf, buf.mod, buf.memory
    ensures IsBuffer(buf) && (buf.mod == old(buf.mod) || fresh(buf.mod))
    ensures ok ==> buf.blen == old(buf.blen) + |VersionHead(p)|
    ensures Grew(old(Look(buf)), Look(buf), VersionHead(p), ok)
  {
    hide LittleEndian, Signed, Pow256, Grew;
    Pow256Values();
    ghost var version, flags := Signed(p.version, 4), LittleEndian(p.serviceFlags, 8);
    ghost var s := Look(buf);
    ok := AppendSigned(buf, p.version, 4);
    ghost var t, ok1 := Look(buf), ok;
    if ok {
      ok := AppendInt(buf, p.serviceFlags, 8);
    }
    Chain(s, t, Look(buf), version, flags, ok1, ok);
    t, ok1 := Look(buf), ok;
    if ok {
      ok := AppendSigned(buf, p.time, 8);
    }
    Chain(s, t, Look(buf), version + flags, Signed(p.time, 8), ok1, ok);
  }

  method AppendVersionTail(buf: Dca.Container, p: VersionPayload) returns (ok: bool)
    requires IsBuffer(buf) && HasAddresses(buf, |VersionTail(p)|) && p.Wf()
    modifies buf, buf.mod, buf.memory
    ensures IsBuffer(buf) && (buf.mod == old(buf.mod) || fresh(buf.mod))
    ensures ok ==> buf.blen == old(buf.blen) + |VersionTail(p)|
    ensures Grew(old(Look(buf)), Look(buf), VersionTail(p), ok)
  {
    hide LittleEndian, Signed, Script, Pow256, Grew;
    Pow256Values();
    ghost var nonce, agent := LittleEndian(p.nonce, 8), Script(p.userAgent);
    assert |VersionTail(p)| == |nonce + agent + Signed(p.startHeight, 4)|;
    ghost var s := Look(buf);
    ok := AppendInt(buf, p.nonce, 8);
    ghost var t, ok1 := Look(buf), ok;
    if ok {
      ok := AppendScript(buf, p.userAgent);
    }
    Chain(s, t, Look(buf), nonce, agent, ok1, ok);
    t, ok1 := Look(buf), ok;
    if ok {
      ok := AppendSigned(buf, p.startHeight, 4);
    }
    Chain(s, t, Look(buf), nonce + agent, Signed(p.startHeight, 4), ok1, ok);
  }

  /** As `Grew`, but success is certain only with room for `need` bytes. */
  ghost predicate GrewWithin(s: Snapshot, t: Snapshot, bytes: seq<byte>, need: nat, ok: bool) {
    && s.Leads(t, ok) && (ok ==> t.contents == s.contents + bytes)
    && (s.Fits(need) ==> ok && t.mod == s.mod && t.bcap == s.bcap && t.asked == s.asked)
  }

  lemma ChainWithin(s: Snapshot, t: Snapshot, u: Snapshot, a: seq<byte>, b: seq<byte>, need: nat, needB: nat,
                    ok1: bool, ok2: bool)
    requires GrewWithin(s, t, a, need, ok1) && need >= |a| + needB
    requires if ok1 then GrewWithin(t, u, b, needB, ok2) else u == t && !ok2
    ensures GrewWithin(s, u, a + b, need, ok2)
  {
    LeadsOn(s, t, u, ok1, ok2);
    hide Snapshot.Leads;
    if ok2 {
      assert s.contents + (a + b) == s.contents + a + b;
    }
  }

  lemma GrewIsWithin(s: Snapshot, t: Snapshot, bytes: seq<byte>, need: nat, ok: bool)
    requires Grew(s, t, bytes, ok) && need >= |bytes|
    ensures GrewWithin(s, t, bytes, need, ok)
  {}

  lemma NetAddrLength(a: NetAddr)
    requires a.Wf()
    ensures |NetAddrBytes(a)| == 26
  {}

  /** The fields one after the other. With the room of the whole structure and the user agent nothing can fail. */
  method AppendVersionFields(buf: Dca.Container, p: VersionPayload) returns (ok: bool)
    requires IsBuffer(buf) && p.Wf() && HasAddresses(buf, |VersionBytes(p)| + VERSION_STRUCT_SIZE)
    modifies buf, buf.mod, buf.memory
    ensures IsBuffer(buf) && (buf.mod == old(buf.mod) || fresh(buf.mod))
    ensures GrewWithin(old(Look(buf)), Look(buf), VersionBytes(p), VERSION_STRUCT_SIZE + |p.userAgent|, ok)
  {
    hide VersionHead, VersionTail, NetAddrBytes, Grew, GrewWithin, Varint;
    VersionLength(p);
    NetAddrLength(p.recv);
    NetAddrLength(p.from);
    ghost var head, recv, from, tail := VersionHead(p), NetAddrBytes(p.recv), NetAddrBytes(p.from), VersionTail(p);
    ghost var s, need := Look(buf), VERSION_STRUCT_SIZE + |p.userAgent|;
    ok := AppendVersionHead(buf, p);
    GrewIsWithin(s, Look(buf), head, need, ok);
    ghost var t, ok1 := Look(buf), ok;
    if ok {
      ok := AppendNetAddr(buf, p.recv);
    }
    ChainWithin(s, t, Look(buf), head, recv, need, NET_ADDR_STRUCT_SIZE, ok1, ok);
    t, ok1 := Look(buf), ok;
    if ok {
      ok := AppendNetAddr(buf, p.from);
    }
    ChainWithin(s, t, Look(buf), head + recv, from, need, NET_ADDR_STRUCT_SIZE, ok1, ok);
    t, ok1 := Look(buf), ok;
    if ok {
      ok := AppendVersionTail(buf, p);
      GrewIsWithin(t, Look(buf), tail, |tail|, ok);
    }
    ChainWithin(s, t, Look(buf), head + recv + from, tail, need, |tail|, ok1, ok);
  }

  /** `room` tells whether the one up-front extend was granted. While its 32-bit size does not wrap, everything after
      it succeeds inside the block it made, the nested extends of the two addresses included. */
  method AppendVersionPayload(buf: Dca.Container, p: VersionPayload)
    returns (ok: bool, room: bool, ghost block: array?<byte>)
    requires IsBuffer(buf) && p.Wf() && HasAddresses(buf, |VersionBytes(p)| + VERSION_STRUCT_SIZE)
    modifies buf, buf.mod, buf.memory
    ensures IsBuffer(buf)
    ensures old(buf.memory.asked) <= buf.memory.asked
    ensures ok <==> buf.memory.Granted(old(buf.memory.asked), buf.memory.asked)
    ensures room <==> old(buf.Fits(ApproxSize(|p.userAgent|))) || buf.memory.grants(old(buf.memory.asked))
    ensures !room ==> !ok && unchanged(buf) && buf.Contents() == old(buf.Contents())
    ensures ok ==> room && buf.Contents() == old(buf.Contents()) + VersionBytes(p)
    ensures room && |p.userAgent| + VERSION_STRUCT_SIZE < TWO_32 ==> ok && buf.mod == block
    ensures old(buf.Fits(ApproxSize(|p.userAgent|))) ==> room && block == old(buf.mod)
  {
    hide VersionBytes, Varint;
    VersionLength(p);
    ok := buf.Extend(ApproxSize(|p.userAgent|));
    room, block := ok, buf.mod;
    if ok {
      ok := AppendVersionFields(buf, p);
    }
  }
}
