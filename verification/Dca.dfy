/** The growable container of nulib (dca.c, dca.h): a header with byte capacity and byte length, then the data,
    in one block owned through a pointer. Built with checked arithmetic; failure handlers return. */
module Dca {
  import opened Bytes

  const HEADER_SIZE: nat := 16

  /** `nu_memory_t`. Which requests are granted is its own affair: `grants` answers them in the order they are made, and
      nothing is known of it. */
  class Allocator {
    const grants: nat -> bool
    var asked: nat

    constructor (grants: nat -> bool)
      ensures this.grants == grants && asked == 0
    {
      this.grants, asked := grants, 0;
    }

    /** The requests from number `from` up to, not including, `to` have all been granted. */
    ghost predicate Granted(from: nat, to: nat) {
      forall k: nat :: from <= k < to ==> grants(k)
    }

    lemma GrantedOne(k: nat)
      ensures Granted(k, k) && (Granted(k, k + 1) <==> grants(k))
    {}

    /** What is granted is not initialised. */
    method Allocate(size: nat) returns (p: array?<byte>)
      modifies this
      ensures asked == old(asked) + 1 && (p != null <==> grants(old(asked)))
      ensures p != null ==> fresh(p) && p.Length == size
    {
      p := null;
      if grants(asked) {
        p := new byte[size];
      }
      asked := asked + 1;
    }

    /** A granted reallocation keeps the old bytes up to the smaller size. */
    method Reallocate(block: array<byte>, size: nat) returns (p: array?<byte>)
      modifies this
      ensures asked == old(asked) + 1 && (p != null <==> grants(old(asked)))
      ensures p != null ==> fresh(p) && p.Length == size
      ensures p != null ==> forall i :: 0 <= i < size && i < block.Length ==> p[i] == block[i]
    {
      p := Allocate(size);
      if p != null {
        var n := if size < block.Length then size else block.Length;
        forall i | 0 <= i < n {
          p[i] := block[i];
        }
      }
    }
  }

  datatype Op = Reserving(n: nat) | Extending(n: nat) | Consuming(n: nat) | Cleaning | Release

  class Container {
    const offset: nat
    const elemSize: nat
    const memory: Allocator
    var mod: array?<byte>
    var bcap: nat
    var blen: nat

    ghost predicate Valid()
      reads this
    {
      && HEADER_SIZE <= offset < TWO_64 && elemSize < TWO_64
      && (mod == null ==> bcap == 0 && blen == 0)
      && (mod != null ==> blen <= bcap && offset + bcap <= mod.Length < TWO_64)
    }

    function Contents(): (s: seq<byte>)
      requires Valid()
      reads this, mod
      ensures |s| == blen
    {
      if mod == null then [] else mod[offset..offset + blen]
    }

    lemma Shows()
      requires Valid() && mod != null
      ensures Contents() == mod[..][offset..offset + blen]
    {}

    /** The bytes of `nelems` elements. */
    function Need(nelems: nat): nat {
      nelems * elemSize
    }

    /** `nb` more bytes fit without a new block. */
    predicate Fits(nb: nat)
      reads this
    {
      mod != null && blen + nb <= bcap
    }

    constructor (offset: nat, elemSize: nat, memory: Allocator)
      requires HEADER_SIZE <= offset < TWO_64 && elemSize < TWO_64
      ensures Valid() && Contents() == [] && mod == null
      ensures this.offset == offset && this.elemSize == elemSize && this.memory == memory
    {
      this.offset, this.elemSize, this.memory := offset, elemSize, memory;
      mod, bcap, blen := null, 0, 0;
    }

    method ReleaseAll()
      requires Valid()
      modifies this
      ensures Valid() && Contents() == [] && mod == null
    {
      if mod != null {
        mod, bcap, blen := null, 0, 0;
      }
    }

    /** Room for `nb` bytes is there already. */
    predicate Covers(nb: nat)
      reads this
    {
      mod != null && nb <= bcap
    }

    /** Reserving never shrinks and keeps the contents. It asks the allocator once, and only for room that is not there;
        it fails exactly when it is refused, and then changes nothing. The request size is computed modulo 2^64: the
        container is sound afterwards exactly when that did not wrap. */
    method ReserveBytes(nb: nat) returns (ok: bool)
      requires Valid() && nb < TWO_64
      modifies this, memory
      ensures memory.asked == old(memory.asked) + if old(Covers(nb)) then 0 else 1
      ensures ok <==> memory.Granted(old(memory.asked), memory.asked)
      ensures !ok || old(Covers(nb)) ==> unchanged(this)
      ensures ok && !old(Covers(nb)) ==>
        mod != null && fresh(mod) && bcap == nb && blen == old(blen) && (Valid() <==> offset + nb < TWO_64)
      ensures ok && Valid() ==> mod != null && bcap >= nb && bcap >= old(bcap) && Contents() == old(Contents())
    {
      hide Allocator.Granted;
      memory.GrantedOne(memory.asked);
      var size := (offset + nb) % TWO_64;
      var p := mod;
      if mod == null {
        p := memory.Allocate(size);
      } else if bcap < nb {
        p := memory.Reallocate(mod, size);
      } else {
        return true;
      }
      if p == null {
        return false;
      }
      bcap := nb;
      blen := Min(blen, nb);
      mod := p;
      return true;
    }

    /** Consuming appends exactly `nb` bytes, of unspecified value, at the old length `pos`. It fails exactly when the
        length would reach 2^64 or the allocator, asked only if the bytes do not fit, refuses. */
    method ConsumeBytes(nb: nat) returns (ok: bool, pos: nat)
      requires Valid() && nb < TWO_64
      modifies this, memory
      ensures memory.asked == old(memory.asked) + if old(Fits(nb)) || old(blen) + nb >= TWO_64 then 0 else 1
      ensures ok <==> old(blen) + nb < TWO_64 && memory.Granted(old(memory.asked), memory.asked)
      ensures !ok ==> unchanged(this)
      ensures old(Fits(nb)) && old(blen) + nb < TWO_64 ==> ok && mod == old(mod) && bcap == old(bcap)
      ensures ok ==> pos == old(blen) && blen == old(blen) + nb && mod != null
      ensures ok ==> mod == old(mod) || (fresh(mod) && bcap == blen)
      ensures ok ==> bcap >= old(bcap) && (Valid() <==> old(Fits(nb)) || offset + blen < TWO_64)
      ensures ok && Valid() ==> Contents()[..pos] == old(Contents())
    {
      hide Allocator.Granted, Contents;
      memory.GrantedOne(memory.asked);
      ghost var before := Contents();
      pos := 0;
      var len := blen;
      var required := (len + nb) % TWO_64;
      if required < len {
        return false, 0;
      }
      ok := true;
      if mod == null || bcap < required {
        ok := ReserveBytes(required);
        assert ok && offset + required < TWO_64 ==> Valid() && Contents() == before;
      }
      if !ok {
        return false, 0;
      }
      ghost var block := mod[..];
      if Valid() {
        Shows();
      }
      blen := len + nb;
      pos := len;
      if Valid() {
        Shows();
        SlicePrefix(block, offset, len, blen);
      }
    }

    method Reserve(nelems: nat) returns (ok: bool)
      requires Valid() && nelems < TWO_64
      modifies this, memory
      ensures memory.asked
           == old(memory.asked) + if Need(nelems) >= TWO_64 || old(Covers(Need(nelems))) then 0 else 1
      ensures ok <==> Need(nelems) < TWO_64 && memory.Granted(old(memory.asked), memory.asked)
      ensures !ok || old(Covers(Need(nelems))) ==> unchanged(this)
      ensures ok && offset + Need(nelems) < TWO_64 ==>
        Valid() && mod != null && bcap >= Need(nelems) && bcap >= old(bcap) && Contents() == old(Contents())
      ensures ok ==> mod != null
      ensures ok ==> mod == old(mod) || fresh(mod)
    {
      hide Allocator.Granted;
      memory.GrantedOne(memory.asked);
      var nbytes := Need(nelems);
      if nbytes >= TWO_64 {
        return false;
      }
      ok := ReserveBytes(nbytes);
    }

    /** The bytes of the whole elements there are and `nelems` more. */
    function Total(len: nat, nelems: nat): nat {
      if elemSize == 0 then 0 else Need(len / elemSize + nelems)
    }

    /** Extending makes room for `nelems` elements beyond the present ones. */
    method Extend(nelems: nat) returns (ok: bool)
      requires Valid() && nelems < TWO_64
      modifies this, memory
      ensures var total := Total(old(blen), nelems);
              memory.asked == old(memory.asked)
                              + if elemSize == 0 || total >= TWO_64 || old(Covers(total)) then 0 else 1
      ensures ok <==> elemSize > 0 && Total(old(blen), nelems) < TWO_64
                      && memory.Granted(old(memory.asked), memory.asked)
      ensures !ok || old(Covers(Total(blen, nelems))) ==> unchanged(this)
      ensures ok && offset + Total(old(blen), nelems) < TWO_64 ==>
        Valid() && bcap >= old(bcap) && Contents() == old(Contents())
      ensures ok && offset + Total(old(blen), nelems) < TWO_64 && old(blen) % elemSize == 0 ==>
        Total(old(blen), nelems) == blen + Need(nelems) && Fits(Need(nelems))
      ensures ok ==> mod != null
      ensures ok ==> mod == old(mod) || fresh(mod)
    {
      hide Allocator.Granted;
      memory.GrantedOne(memory.asked);
      if elemSize == 0 {
        return false;
      }
      var len := blen / elemSize;
      WholeElements(blen, elemSize, nelems);
      ghost var need := Need(nelems);
      ghost var part := blen % elemSize;
      var newlen := len + nelems;
      AtLeast(newlen, elemSize);
      assert newlen * elemSize == blen - part + need;
      if newlen >= TWO_64 {
        return false;
      }
      ok := Reserve(newlen);
    }

    method Consume(nelems: nat) returns (ok: bool, pos: nat)
      requires Valid() && nelems < TWO_64
      modifies this, memory
      ensures memory.asked
           == old(memory.asked) + if old(Fits(Need(nelems))) || old(blen) + Need(nelems) >= TWO_64 then 0 else 1
      ensures ok <==> old(blen) + Need(nelems) < TWO_64 && memory.Granted(old(memory.asked), memory.asked)
      ensures !ok ==> unchanged(this)
      ensures ok && old(Fits(Need(nelems))) ==> mod == old(mod) && bcap == old(bcap)
      ensures ok ==> pos == old(blen) && blen == old(blen) + nelems * elemSize == old(blen) + Need(nelems)
      ensures ok && offset + blen < TWO_64 ==>
        Valid() && bcap >= old(bcap) && Contents()[..pos] == old(Contents())
      ensures ok ==> mod != null
      ensures ok ==> mod == old(mod) || fresh(mod)
    {
      hide Allocator.Granted;
      memory.GrantedOne(memory.asked);
      var nbytes := Need(nelems);
      if nbytes >= TWO_64 {
        return false, 0;
      }
      ok, pos := ConsumeBytes(nbytes);
    }

    method Clean()
      requires Valid()
      modifies this`blen
      ensures Valid() && Contents() == [] && bcap == old(bcap)
    {
      if mod != null {
        blen := 0;
      }
    }

    predicate Sized(op: Op) {
      op.Reserving? || op.Extending? || op.Consuming? ==> op.n < TWO_64
    }

    /** The data bytes that `op` asks room for when `len` are in use. */
    function Reach(len: nat, op: Op): nat {
      match op
      case Reserving(n) => Need(n)
      case Extending(n) => Total(len, n)
      case Consuming(n) => len + Need(n)
      case Cleaning => 0
      case Release => 0
    }

    /** The request does not wrap when the header's offset is added; from 2^64 bytes on it is refused before that. */
    predicate Tame(len: nat, op: Op) {
      offset + Reach(len, op) < TWO_64 || Reach(len, op) >= TWO_64
    }

    function Length(len: nat, op: Op, ok: bool): nat {
      match op
      case Reserving(_) => len
      case Extending(_) => len
      case Consuming(n) => if ok then len + Need(n) else len
      case Cleaning => 0
      case Release => 0
    }

    /** No request of the run wraps, whatever is refused on the way. */
    predicate NoWrap(len: nat, ops: seq<Op>)
      decreases |ops|
    {
      ops != [] ==>
        && Sized(ops[0]) && Tame(len, ops[0]) && NoWrap(Length(len, ops[0], false), ops[1..])
        && (Reach(len, ops[0]) < TWO_64 ==> NoWrap(Length(len, ops[0], true), ops[1..]))
    }

    predicate WholeElems(len: nat) {
      elemSize > 0 ==> len % elemSize == 0
    }

    lemma LengthKeepsWhole(len: nat, op: Op, ok: bool)
      requires WholeElems(len)
      ensures WholeElems(Length(len, op, ok))
    {
      if op.Consuming? && elemSize > 0 {
        MoreElements(len, op.n, elemSize);
      }
    }

    /** The request is refused for its size, before the allocator is asked. */
    predicate TooLarge(len: nat, op: Op) {
      (op.Extending? && elemSize == 0) || Reach(len, op) >= TWO_64
    }

    predicate Asks(op: Op)
      reads this
    {
      (op.Reserving? || op.Extending? || op.Consuming?) && !TooLarge(blen, op) && !Covers(Reach(blen, op))
    }

    method Apply(op: Op) returns (ok: bool)
      requires Valid() && Sized(op) && Tame(blen, op)
      modifies this, memory
      ensures Valid() && (bcap >= old(bcap) || op == Release)
      ensures Allowed(old(Contents()), Contents(), op, ok)
      ensures memory.asked == old(memory.asked) + if old(Asks(op)) then 1 else 0
      ensures ok <==> !TooLarge(old(blen), op) && memory.Granted(old(memory.asked), memory.asked)
      ensures blen == Length(old(blen), op, ok)
    {
      hide Need, Allocator.Granted;
      memory.GrantedOne(memory.asked);
      ok := true;
      match op {
        case Reserving(n) => ok := Reserve(n);
        case Extending(n) => ok := Extend(n);
        case Consuming(n) => var pos: nat; ok, pos := Consume(n);
        case Cleaning => Clean();
        case Release => ReleaseAll();
      }
    }

    /** Any run of operations none of whose requests wraps, refused as they may be: every state on the way is a byte
        string obtained from the one before as the operation says, and the container's length and capacity stay in
        order throughout. An operation fails exactly when it is too large or the allocator refuses it; `asks` counts the
        requests made. A container of whole elements stays one. */
    method Run(ops: seq<Op>) returns (oks: seq<bool>, ghost trace: seq<seq<byte>>, ghost asks: seq<nat>)
      requires Valid() && NoWrap(blen, ops)
      modifies this, memory
      ensures Valid() && |oks| == |ops| && |trace| == |asks| == |ops| + 1
      ensures asks[0] == old(memory.asked) && asks[|ops|] == memory.asked
      ensures trace[0] == old(Contents()) && trace[|ops|] == Contents()
      ensures forall i: nat :: i < |ops| ==> Recorded(ops, oks, trace, asks, i)
      ensures WholeElems(old(blen)) ==> WholeElems(blen)
    {
      hide Allocator.Granted, Need, Reach, Tame, TooLarge, Asks, Length, Allowed, Sized, WholeElems, NoWrap, Recorded;
      oks, trace, asks := [], [Contents()], [memory.asked];
      assert ops[0..] == ops;
      for i := 0 to |ops|
        invariant Valid() && |oks| == i && |trace| == |asks| == i + 1
        invariant NoWrap(blen, ops[i..])
        invariant asks[0] == old(memory.asked) && asks[i] == memory.asked
        invariant trace[0] == old(Contents()) && trace[i] == Contents()
        invariant forall k: nat :: k < i ==> Recorded(ops, oks, trace, asks, k)
        invariant WholeElems(old(blen)) ==> WholeElems(blen)
      {
        NoWrapNext(blen, ops, i);
        ghost var len := blen;
        var ok := Apply(ops[i]);
        RecordNext(ops, oks, trace, asks, ok, Contents(), memory.asked);
        if WholeElems(len) {
          LengthKeepsWhole(len, ops[i], ok);
        }
        SizeOfLarge(len, ops[i]);
        oks, trace, asks := oks + [ok], trace + [Contents()], asks + [memory.asked];
      }
    }

    lemma NoWrapNext(len: nat, ops: seq<Op>, i: nat)
      requires i < |ops| && NoWrap(len, ops[i..])
      ensures Sized(ops[i]) && Tame(len, ops[i]) && NoWrap(Length(len, ops[i], false), ops[i + 1..])
      ensures Reach(len, ops[i]) < TWO_64 ==> NoWrap(Length(len, ops[i], true), ops[i + 1..])
    {
      hide Need, Reach, Tame, Length, Sized;
      assert ops[i..][1..] == ops[i + 1..];
    }

    lemma SizeOfLarge(len: nat, op: Op)
      ensures !TooLarge(len, op) ==> Reach(len, op) < TWO_64
    {}

    /** At most one request, and a failure only for size or for a refusal. */
    ghost predicate Answered(asked: nat, asked': nat, len: nat, op: Op, ok: bool) {
      asked <= asked' <= asked + 1 && (ok <==> !TooLarge(len, op) && memory.Granted(asked, asked'))
    }

    /** Operation `k` of a run did to contents and allocator what it may. */
    ghost predicate Recorded(ops: seq<Op>, oks: seq<bool>, trace: seq<seq<byte>>, asks: seq<nat>, k: nat) {
      && k < |ops| && k < |oks| && k + 1 < |trace| && k + 1 < |asks|
      && Allowed(trace[k], trace[k + 1], ops[k], oks[k])
      && Answered(asks[k], asks[k + 1], |trace[k]|, ops[k], oks[k])
    }

    lemma RecordNext(ops: seq<Op>, oks: seq<bool>, trace: seq<seq<byte>>, asks: seq<nat>, ok: bool, c: seq<byte>,
                     asked: nat)
      requires var i := |oks|; i < |ops| && |trace| == |asks| == i + 1
      requires forall k: nat :: k < |oks| ==> Recorded(ops, oks, trace, asks, k)
      requires var i := |oks|; Allowed(trace[i], c, ops[i], ok) && asks[i] <= asked <= asks[i] + 1
      requires var i := |oks|; ok <==> !TooLarge(|trace[i]|, ops[i]) && memory.Granted(asks[i], asked)
      ensures forall k: nat :: k <= |oks| ==> Recorded(ops, oks + [ok], trace + [c], asks + [asked], k)
    {
      hide Allocator.Granted, TooLarge, Allowed;
      forall k: nat | k <= |oks|
        ensures Recorded(ops, oks + [ok], trace + [c], asks + [asked], k)
      {
        if k < |oks| {
          assert Recorded(ops, oks, trace, asks, k);
        }
      }
    }

    /** What `op` may make of contents `c`: a refusal leaves them, growing leaves them, consuming adds its bytes at the
        end, cleaning and releasing empty them. */
    predicate Allowed(c: seq<byte>, d: seq<byte>, op: Op, ok: bool) {
      match op
      case Reserving(_) => d == c
      case Extending(_) => d == c
      case Consuming(n) => if ok then |d| == |c| + Need(n) && d[..|c|] == c else d == c
      case Cleaning => ok && d == []
      case Release => ok && d == []
    }

    /** Consumes that fit in the room there is keep the block: nothing is moved, and every one of them succeeds. */
    method ConsumeAll(counts: seq<nat>)
      requires Valid() && elemSize > 0 && Fits(Need(Sum(counts))) && blen + Need(Sum(counts)) < TWO_64 - offset
      modifies this, memory
      ensures memory.asked == old(memory.asked)
      ensures Valid() && mod == old(mod) && bcap == old(bcap) && blen == old(blen) + Need(Sum(counts))
      ensures Contents()[..old(blen)] == old(Contents())
    {
      hide Need, Sum, Taken, Contents, Allocator.Granted;
      TakenEnds(counts);
      assert Contents()[..blen] == Contents();
      ghost var start, before := blen, Contents();
      var i := 0;
      while i < |counts|
        invariant memory.asked == old(memory.asked)
        invariant 0 <= i <= |counts| && Valid() && mod == old(mod) && bcap == old(bcap)
        invariant blen == start + Taken(counts, i) && Taken(counts, i) <= Need(Sum(counts))
        invariant Contents()[..start] == before
      {
        memory.GrantedOne(memory.asked);
        TakenStep(counts, i);
        var ok, pos := Consume(counts[i]);
        PrefixOfPrefix(Contents(), pos, start);
        i := i + 1;
      }
    }

    /** The bytes of the first `i` counts. */
    function Taken(counts: seq<nat>, i: nat): nat
      requires i <= |counts|
    {
      Need(Sum(counts[..i]))
    }

    lemma TakenEnds(counts: seq<nat>)
      ensures Taken(counts, 0) == 0 && Taken(counts, |counts|) == Need(Sum(counts))
    {
      assert counts[..0] == [] && counts[..|counts|] == counts;
    }

    lemma TakenStep(counts: seq<nat>, i: nat)
      requires i < |counts| && elemSize > 0
      ensures Taken(counts, i + 1) == Taken(counts, i) + Need(counts[i]) <= Need(Sum(counts))
      ensures counts[i] <= Need(counts[i])
    {
      SumStep(counts, i, elemSize, Sum(counts));
      AtLeast(counts[i], elemSize);
    }

    /** After a successful extend by `k` elements, consumes of at most `k` elements in all never reallocate. */
    method ConsumeAfterExtend(k: nat, counts: seq<nat>) returns (ok: bool, ghost block: array?<byte>)
      requires Valid() && k < TWO_64 && elemSize > 0 && blen % elemSize == 0
      requires offset + blen + Need(k) < TWO_64 && Sum(counts) <= k
      modifies this, memory
      ensures ok <==> memory.Granted(old(memory.asked), memory.asked)
      ensures memory.asked <= old(memory.asked) + 1
      ensures ok ==> Valid() && mod == block != null && blen == old(blen) + Need(Sum(counts))
      ensures ok ==> Contents()[..old(blen)] == old(Contents())
    {
      NeedMonotone(Sum(counts), k);
      TotalOfWhole(blen, k);
      hide Need, Sum, Total, Allocator.Granted;
      ok := Extend(k);
      block := mod;
      if ok {
        ConsumeAll(counts);
      }
    }

    lemma TotalOfWhole(len: nat, k: nat)
      requires elemSize > 0 && len % elemSize == 0
      ensures Total(len, k) == len + Need(k)
    {
      WholeElements(len, elemSize, k);
    }

    lemma NeedMonotone(n: nat, k: nat)
      requires n <= k
      ensures Need(n) <= Need(k)
    {
      ScaleSum(n, k - n, k, k, elemSize);
    }
  }

  function Sum(counts: seq<nat>): nat
    decreases |counts|
  {
    if counts == [] then 0 else Sum(counts[..|counts| - 1]) + counts[|counts| - 1]
  }

  lemma {:induction false} SumPrefix(counts: seq<nat>, i: nat)
    requires i <= |counts|
    ensures Sum(counts[..i]) <= Sum(counts)
    decreases |counts|
  {
    if i == |counts| {
      assert counts[..i] == counts;
    } else {
      SumPrefix(counts[..|counts| - 1], i);
      assert counts[..|counts| - 1][..i] == counts[..i];
    }
  }

  lemma ScaleSum(a: nat, b: nat, c: nat, k: nat, size: nat)
    requires c == a + b <= k
    ensures c * size == a * size + b * size <= k * size
  {}

  lemma SumStep(counts: seq<nat>, i: nat, size: nat, k: nat)
    requires i < |counts| && Sum(counts) <= k
    ensures Sum(counts[..i + 1]) == Sum(counts[..i]) + counts[i] <= k
    ensures Sum(counts[..i + 1]) * size == Sum(counts[..i]) * size + counts[i] * size <= k * size
  {
    SumPrefix(counts, i + 1);
    assert counts[..i + 1][..i] == counts[..i];
    ScaleSum(Sum(counts[..i]), counts[i], Sum(counts[..i + 1]), k, size);
  }

  function Min(a: nat, b: nat): nat {
    if a < b then a else b
  }

  /** Whole elements in `bytes`, then `more` of them: the floor is taken on what is there. */
  lemma WholeElements(bytes: nat, size: nat, more: nat)
    requires size > 0
    ensures (bytes / size + more) * size == bytes - bytes % size + more * size
    ensures 0 <= bytes % size <= bytes && bytes / size + more <= bytes + more * size
  {
    var q, r := bytes / size, bytes % size;
    assert bytes == q * size + r;
    Distribute(q, more, size);
    AtLeast(q, size);
    AtLeast(more, size);
  }

  lemma MoreElements(len: nat, n: nat, size: nat)
    requires size > 0 && len % size == 0
    ensures (len + n * size) % size == 0
  {
    var q := len / size;
    Distribute(q, n, size);
    assert len + n * size == (q + n) * size;
    ModOfMultiple(q + n, size);
  }

  lemma PrefixOfPrefix(s: seq<byte>, most: nat, some: nat)
    requires some <= most <= |s|
    ensures s[..most][..some] == s[..some]
  {}

  lemma SlicePrefix(block: seq<byte>, from: nat, some: nat, all: nat)
    requires some <= all && from + all <= |block|
    ensures block[from..from + all][..some] == block[from..from + some]
  {}

  lemma Distribute(a: nat, b: nat, c: nat)
    ensures (a + b) * c == a * c + b * c
  {}

  lemma AtLeast(a: nat, c: nat)
    requires c > 0
    ensures a <= a * c
  {}
}
