/** `find_nonce` of main_block_solver.c: scan an inclusive nonce range from a saved SHA-256 midstate. */
module FindNonce {
  import opened Bytes
  import opened Fips180
  import opened Stream
  import opened Sha256Engine
  import opened BlockHeader
  import opened Wrappers
  import Int256

  class Task {
    var header: Header
    var target: seq<byte>
    var nonceMin: nat
    var nonceMax: nat

    ghost predicate Valid()
      reads this
    {
      header.Wf() && |target| == 32 && nonceMin < TWO_32 && nonceMax < TWO_32
    }

    constructor (header: Header, target: seq<byte>, nonceMin: nat, nonceMax: nat)
      ensures this.header == header && this.target == target
      ensures this.nonceMin == nonceMin && this.nonceMax == nonceMax
    {
      this.header, this.target, this.nonceMin, this.nonceMax := header, target, nonceMin, nonceMax;
    }
  }

  /** What a scan of `lo` to `hi` has to answer: the smallest nonce that meets the target, or none. */
  ghost predicate Finds(header: Header, target: seq<byte>, lo: nat, hi: nat, answer: Option<nat>)
    requires header.Wf() && |target| == 32 && hi < TWO_32
  {
    match answer
    case None => NoneMeets(header, target, lo, hi + 1)
    case Some(n) => lo <= n <= hi && Meets(header.(nonce := n), target) && NoneMeets(header, target, lo, n)
  }

  /** There is one answer, and it does not depend on the nonce the header came with. */
  lemma FindsOnce(a: Header, b: Header, target: seq<byte>, lo: nat, hi: nat, x: Option<nat>, y: Option<nat>)
    requires a.Wf() && b == a.(nonce := b.nonce) && b.Wf() && |target| == 32 && hi < TWO_32
    requires Finds(a, target, lo, hi, x) && Finds(b, target, lo, hi, y)
    ensures x == y
  {
    hide Meets;
    assert forall n: nat :: b.(nonce := n) == a.(nonce := n);
  }

  /** The midstate is faithful: the context saved after 76 bytes, given the four nonce bytes, stands for the whole
      80-byte header. */
  lemma MidstateContinues(mid: Ctx<Words>, header: Header, nonce: nat)
    requires header.Wf() && nonce < TWO_32
    requires mid.msglen == 76 && Holds(Compress, H0, mid, header.Prefix())
    ensures var r := Update(Compress, mid, Pointer(LittleEndian(nonce, 4)), 4);
            r.1 == Ok && r.0.msglen == 80 && Holds(Compress, H0, r.0, header.(nonce := nonce).Serialize())
  {
    hide Compress, PutAll, Update, LittleEndian, Fold;
    var tail := LittleEndian(nonce, 4);
    assert |header.Prefix()| == 76;
    assert Whole(76) == 64 && mid.index == 12;
    UpdateIsPutAll(Compress, mid, Pointer(tail), 4);
    SliceOfPointer(tail);
    var longer := mid.(msglen := 80);
    assert Holds(Compress, H0, longer, header.Prefix());
    PutAllHolds(Compress, H0, longer, header.Prefix(), tail);
  }

  /** `mid` is the midstate of the header: it stands for the 76 bytes before the nonce. */
  ghost predicate Saved(mid: Context, header: Header)
    reads mid, mid.hash, mid.block
  {
    mid.Valid() && mid.msglen == 76 && Holds(Compress, H0, mid.View(), header.Prefix())
  }

  ghost predicate Apart(mid: Context, ctx: Context, tmp: array<byte>, hash: array<byte>) {
    && ctx != mid && ctx.hash != mid.hash && ctx.block != mid.block
    && tmp.Length == 32 && hash.Length == 32 && tmp != hash
    && tmp != ctx.block && tmp != mid.block && hash != ctx.block && hash != mid.block
  }

  /** The hash computed from the midstate is the double SHA-256 of the header. */
  method HashFromMidstate(mid: Context, ctx: Context, header: Header, tmp: array<byte>, hash: array<byte>)
    requires header.Wf() && Apart(mid, ctx, tmp, hash) && ctx.Valid() && Saved(mid, header)
    modifies ctx, ctx.hash, ctx.block, tmp, hash
    ensures ctx.Valid() && Saved(mid, header)
    ensures hash[..] == Sha256(Sha256(header.Serialize())) == header.Hash()
  {
    hide Compress, Holds, Stream.Update, Sha256, LittleEndian, PutAll;
    var nonce := LittleEndian(header.nonce, 4);
    ctx.CopyFrom(mid);
    MidstateContinues(ctx.View(), header, header.nonce);
    var ec := ctx.Update(Pointer(nonce), 4);
    FinishInto(ctx, tmp, header.Serialize());
    ghost var first := Sha256(header.Serialize());
    assert tmp[..] == first;
    SliceOfPointer(first);
    var _ := Absorb(ctx, Pointer(tmp[..]), 32);
    FinishInto(ctx, hash, first);
    assert hash[..] == Sha256(first);
  }

  /** The body of the scan for one nonce. */
  method TryNonce(mid: Context, ctx: Context, header: Header, tmp: array<byte>, hash: array<byte>, target: array<byte>)
    returns (met: bool)
    requires header.Wf() && Apart(mid, ctx, tmp, hash) && ctx.Valid() && Saved(mid, header)
    requires target.Length == 32 && target != tmp && target != hash && target != ctx.block && target != mid.block
    modifies ctx, ctx.hash, ctx.block, tmp, hash
    ensures ctx.Valid() && Saved(mid, header)
    ensures met == Meets(header, target[..])
  {
    hide Saved, Sha256, Header.Hash, Header.Serialize, Int256.LessOrEqual;
    HashFromMidstate(mid, ctx, header, tmp, hash);
    met := Int256.I256Le(hash, target);
    assert hash[..32] == hash[..] && target[..32] == target[..];
  }

  lemma SamePrefix(mid: Context, header: Header, n: nat)
    requires Saved(mid, header)
    ensures Saved(mid, header.(nonce := n))
  {
    assert header.(nonce := n).Prefix() == header.Prefix();
  }

  /** The loop of `find_nonce`; the 64-bit counter passes the end of the range even at 0xFFFFFFFF. */
  method Scan(task: Task, mid: Context, ctx: Context, tmp: array<byte>, hash: array<byte>, target: array<byte>)
    returns (found: bool)
    requires task.Valid() && Apart(mid, ctx, tmp, hash) && ctx.Valid() && Saved(mid, task.header)
    requires target.Length == 32 && target != tmp && target != hash && target != ctx.block && target != mid.block
    requires target[..] == task.target
    modifies task, ctx, ctx.hash, ctx.block, tmp, hash
    ensures task.Valid() && task.target == old(task.target)
    ensures task.nonceMin == old(task.nonceMin) && task.nonceMax == old(task.nonceMax)
    ensures task.header == old(task.header).(nonce := task.header.nonce)
    ensures Finds(old(task.header), task.target, task.nonceMin, task.nonceMax,
                  if found then Some(task.header.nonce) else None)
  {
    hide Saved, Meets;
    var header := task.header;
    var n := task.nonceMin;
    while n <= task.nonceMax
      invariant ctx.Valid() && Saved(mid, header)
      invariant task.Valid() && task.target == old(task.target) && target[..] == task.target
      invariant task.nonceMin == old(task.nonceMin) && task.nonceMax == old(task.nonceMax)
      invariant task.nonceMin <= n <= TWO_32
      invariant task.header == header.(nonce := task.header.nonce)
      invariant NoneMeets(header, task.target, task.nonceMin, n)
      decreases task.nonceMax + 1 - n
    {
      task.header := task.header.(nonce := n);
      SamePrefix(mid, header, n);
      var met := TryNonce(mid, ctx, task.header, tmp, hash, target);
      SamePrefix(mid, task.header, header.nonce);
      if met {
        return true;
      }
      n := n + 1;
    }
    return false;
  }

  /** The scan stops at the smallest nonce of the range that meets the target, or visits the whole range. */
  method Find(task: Task) returns (found: bool)
    requires task.Valid()
    modifies task
    ensures task.Valid() && task.target == old(task.target)
    ensures task.nonceMin == old(task.nonceMin) && task.nonceMax == old(task.nonceMax)
    ensures task.header == old(task.header).(nonce := task.header.nonce)
    ensures Finds(old(task.header), task.target, task.nonceMin, task.nonceMax,
                  if found then Some(task.header.nonce) else None)
  {
    hide Compress, Holds, PutAll, Meets, Header.Serialize, Header.Prefix;
    var ctx := new Context();
    var tmpCtx := new Context();
    var tmpHash := new byte[32];
    var hash := new byte[32];
    var header, goal := task.header, task.target;
    var target := new byte[32](i requires 0 <= i < 32 => goal[i]);
    assert target[..] == goal;
    var _ := Absorb(tmpCtx, Pointer(header.Serialize()), 76);
    SliceOfPrefix(header.Serialize(), 76);
    assert Saved(tmpCtx, header);
    found := Scan(task, tmpCtx, ctx, tmpHash, hash, target);
  }

  lemma SliceOfPrefix(s: seq<byte>, n: nat)
    requires n <= |s|
    ensures Slice(Pointer(s), 0, n) == s[..n]
  {}
}
