/** The task pool of main_block_solver.c: how `find_nonce_next_task` cuts the nonces of each timestamp into ranges. */
module TaskPool {
  import opened Bytes
  import opened BlockHeader
  import opened Wrappers
  import FindNonce

  const NONCE_MAX: nat := 0xFFFF_FFFF

  /** The fields of the pool that a hand-out reads and writes. */
  datatype Pool = Pool(timestamp: nat, timestampMax: nat, nonce: nat, chunks: nat) {
    predicate Wf() {
      timestamp < TWO_32 && timestampMax < TWO_32 && nonce < TWO_32 && 0 < chunks < TWO_32
    }

    predicate Empty() {
      timestamp > timestampMax
    }

    function Step(): (c: nat)
      requires Wf()
      ensures 0 < c <= NONCE_MAX
    {
      NONCE_MAX / chunks
    }

    /** The last nonce of the next range. */
    function Last(): (b: nat)
      requires Wf()
      ensures nonce <= b <= NONCE_MAX
    {
      if nonce + Step() > NONCE_MAX then NONCE_MAX else nonce + Step()
    }

    /** The pool after handing out the next range; the 32-bit timestamp wraps. */
    function Advance(): (p: Pool)
      requires Wf()
      ensures p.Wf() && p.timestampMax == timestampMax && p.chunks == chunks
    {
      if Last() == NONCE_MAX then this.(timestamp := (timestamp + 1) % TWO_32, nonce := 0)
      else this.(nonce := Last() + 1)
    }

    function NextRange(): Range
      requires Wf()
    {
      Range(timestamp, nonce, Last())
    }
  }

  /** Nonces `lo` to `hi`, both included, at one timestamp. */
  datatype Range = Range(timestamp: nat, lo: nat, hi: nat) {
    predicate Has(t: nat, n: nat) {
      t == timestamp && lo <= n <= hi
    }

    predicate Before(other: Range) {
      timestamp < other.timestamp || (timestamp == other.timestamp && hi < other.lo)
    }
  }

  /** `find_nonce_next_task` on the pool's value. */
  function Next(p: Pool): (Pool, Option<Range>)
    requires p.Wf()
  {
    if p.Empty() then (p, None) else (p.Advance(), Some(p.NextRange()))
  }

  class NonceTaskPool {
    const header: Header
    const target: seq<byte>
    var timestamp: nat
    const timestampMax: nat
    var nonce: nat
    const nonceChunks: nat

    function View(): Pool
      reads this
    {
      Pool(timestamp, timestampMax, nonce, nonceChunks)
    }

    ghost predicate Valid()
      reads this
    {
      View().Wf() && header.Wf() && |target| == 32
    }

    constructor (header: Header, target: seq<byte>, timestampMax: nat, chunks: nat)
      requires header.Wf() && |target| == 32 && timestampMax < TWO_32 && 0 < chunks < TWO_32
      ensures Valid() && View() == Pool(header.timestamp, timestampMax, 0, chunks)
      ensures this.header == header && this.target == target
    {
      this.header, this.target, this.timestampMax, this.nonceChunks := header, target, timestampMax, chunks;
      this.timestamp, this.nonce := header.timestamp, 0;
    }

    method NextTask(task: FindNonce.Task) returns (ok: bool)
      requires Valid()
      modifies this, task
      ensures Valid() && (View(), if ok then Some(Range(task.header.timestamp, task.nonceMin, task.nonceMax)) else None)
                         == Next(old(View()))
      ensures ok ==>
        && task.Valid() && task.target == target && task.nonceMin <= task.nonceMax
        && task.header == header.(timestamp := task.header.timestamp, nonce := task.nonceMin)
    {
      ghost var p := View();
      var chunk := NONCE_MAX / nonceChunks;
      var a := nonce;
      var b := if a + chunk > NONCE_MAX then NONCE_MAX else a + chunk;
      var t := timestamp;
      assert chunk == p.Step() && b == p.Last();
      hide Pool.Step, Pool.Last;
      if t > timestampMax {
        return false;
      }
      if b == NONCE_MAX {
        timestamp := (timestamp + 1) % TWO_32;
        nonce := 0;
      } else {
        nonce := b + 1;
      }
      task.nonceMin, task.nonceMax := a, b;
      task.target := target;
      task.header := header.(timestamp := t, nonce := a);
      return true;
    }
  }

  // The hand-outs of a pool, in order, until it is empty.

  predicate Finite(p: Pool) {
    p.Wf() && p.timestampMax < NONCE_MAX
  }

  function Drain(p: Pool): (rs: seq<Range>)
    requires Finite(p)
    decreases p.timestampMax + 1 - p.timestamp, TWO_32 - p.nonce
  {
    if p.Empty() then [] else [p.NextRange()] + Drain(p.Advance())
  }

  function After(p: Pool, k: nat): (q: Pool)
    requires p.Wf()
    ensures q.Wf() && q.timestampMax == p.timestampMax
  {
    if k == 0 then p else Next(After(p, k - 1)).0
  }

  lemma {:induction false} AfterShift(p: Pool, k: nat)
    requires p.Wf()
    ensures After(p, k + 1) == After(Next(p).0, k)
  {
    if k > 0 {
      AfterShift(p, k - 1);
    }
  }

  /** Call `k` hands out the `k`-th range of the drain; from then on the pool is empty and stays so. */
  lemma {:induction false} CallsFollowDrain(p: Pool, k: nat)
    requires Finite(p)
    ensures Finite(After(p, k))
    ensures Next(After(p, k)).1 == if k < |Drain(p)| then Some(Drain(p)[k]) else None
    decreases p.timestampMax + 1 - p.timestamp, TWO_32 - p.nonce, k
  {
    if p.Empty() {
      if k > 0 {
        CallsFollowDrain(p, k - 1);
        assert Next(After(p, k - 1)).0 == After(p, k - 1);
      }
    } else if k > 0 {
      AfterShift(p, k - 1);
      CallsFollowDrain(p.Advance(), k - 1);
    }
  }

  /** A pool empties exactly when its last timestamp is below the top of the 32-bit counter. */
  lemma PoolEmptiesExactly(p: Pool)
    requires p.Wf()
    ensures (exists k: nat :: Next(After(p, k)).1 == None) <==> p.timestampMax < NONCE_MAX
  {
    if p.timestampMax < NONCE_MAX {
      var k := |Drain(p)|;
      CallsFollowDrain(p, k);
      assert Next(After(p, k)).1 == None;
    } else {
      forall k: nat
        ensures Next(After(p, k)).1 != None
      {
        assert After(p, k).timestamp <= NONCE_MAX;
      }
    }
  }

  ghost predicate Ordered(rs: seq<Range>) {
    forall i, j :: 0 <= i < j < |rs| ==> rs[i].Before(rs[j])
  }

  /** What is left to hand out: the current timestamp from `nonce` on, every later timestamp in full. */
  predicate Remaining(p: Pool, t: nat, n: nat) {
    && p.timestamp <= t <= p.timestampMax && n <= NONCE_MAX
    && (t == p.timestamp ==> p.nonce <= n)
  }

  /** The ranges partition what is left: each (timestamp, nonce) still due lies in a range, no range has any other,
      and the ranges are in strictly increasing order, so they are disjoint. */
  lemma {:induction false} DrainPartitions(p: Pool)
    requires Finite(p)
    ensures Ordered(Drain(p))
    ensures forall t: nat, n: nat ::
      Remaining(p, t, n) <==> exists i :: 0 <= i < |Drain(p)| && Drain(p)[i].Has(t, n)
    decreases p.timestampMax + 1 - p.timestamp, TWO_32 - p.nonce
  {
    if !p.Empty() {
      var r, q, rs := p.NextRange(), p.Advance(), Drain(p);
      DrainPartitions(q);
      assert rs == [r] + Drain(q);
      forall t: nat, n: nat
        ensures Remaining(p, t, n) <==> exists i :: 0 <= i < |rs| && rs[i].Has(t, n)
      {
        assert Remaining(p, t, n) <==> r.Has(t, n) || Remaining(q, t, n);
        if Remaining(q, t, n) {
          var i :| 0 <= i < |Drain(q)| && Drain(q)[i].Has(t, n);
          assert rs[i + 1].Has(t, n);
        }
        if r.Has(t, n) {
          assert rs[0].Has(t, n);
        }
      }
      forall j | 0 < j < |rs|
        ensures r.Before(rs[j])
      {
        var s := rs[j];
        assert s == Drain(q)[j - 1];
        RangesRemain(q, j - 1);
      }
    }
  }

  lemma {:induction false} RangesRemain(p: Pool, i: nat)
    requires Finite(p) && i < |Drain(p)|
    ensures var r := Drain(p)[i];
            r.lo <= r.hi && Remaining(p, r.timestamp, r.lo) && Remaining(p, r.timestamp, r.hi)
    decreases p.timestampMax + 1 - p.timestamp, TWO_32 - p.nonce
  {
    if i > 0 {
      RangesRemain(p.Advance(), i - 1);
    }
  }

  // How many ranges a timestamp has.

  function CountAt(rs: seq<Range>, t: nat): nat
    decreases |rs|
  {
    if rs == [] then 0 else (if rs[0].timestamp == t then 1 else 0) + CountAt(rs[1..], t)
  }

  /** Ranges of length `step + 1` from nonce `a` to the end. */
  function RangesFrom(step: nat, a: nat): nat
    decreases NONCE_MAX - a
  {
    if a + step >= NONCE_MAX then 1 else 1 + RangesFrom(step, a + step + 1)
  }

  lemma {:induction false} CountPerTimestamp(p: Pool, t: nat)
    requires Finite(p)
    ensures CountAt(Drain(p), t)
         == if t < p.timestamp || t > p.timestampMax then 0
            else RangesFrom(p.Step(), if t == p.timestamp then p.nonce else 0)
    decreases p.timestampMax + 1 - p.timestamp, TWO_32 - p.nonce
  {
    if !p.Empty() {
      CountPerTimestamp(p.Advance(), t);
      assert Drain(p)[1..] == Drain(p.Advance());
    }
  }

  /** The count is the ceiling of what is left over the range length. */
  lemma {:induction false} RangesFromIsCeiling(step: nat, a: nat)
    requires a <= NONCE_MAX
    ensures (RangesFrom(step, a) - 1) * (step + 1) < NONCE_MAX + 1 - a <= RangesFrom(step, a) * (step + 1)
    decreases NONCE_MAX - a
  {
    if a + step < NONCE_MAX {
      RangesFromIsCeiling(step, a + step + 1);
      var k := RangesFrom(step, a + step + 1);
      assert k * (step + 1) == (k - 1) * (step + 1) + (step + 1);
      assert (k + 1) * (step + 1) == k * (step + 1) + (step + 1);
    }
  }

  lemma MonotoneProduct(a: nat, b: nat, c: nat)
    requires a <= b
    ensures a * c <= b * c
  {}

  /** A timestamp is never cut into more than `chunks` ranges, and into exactly that many when `chunks - 1` full ranges
      still leave a nonce over. */
  lemma RangesPerTimestamp(chunks: nat)
    requires 0 < chunks <= NONCE_MAX
    ensures RangesFrom(NONCE_MAX / chunks, 0) <= chunks
    ensures RangesFrom(NONCE_MAX / chunks, 0) == chunks <==> (chunks - 1) * (NONCE_MAX / chunks + 1) <= NONCE_MAX
  {
    var step := NONCE_MAX / chunks;
    var k := RangesFrom(step, 0);
    RangesFromIsCeiling(step, 0);
    assert NONCE_MAX < chunks * (step + 1);
    if k > chunks {
      MonotoneProduct(chunks, k - 1, step + 1);
      assert false;
    }
    if k < chunks {
      MonotoneProduct(k, chunks - 1, step + 1);
    }
  }

  lemma QuotientAtLeast(n: nat, d: nat, q: nat)
    requires d > 0 && q * d <= n
    ensures n / d >= q
  {
    if n / d < q {
      MonotoneProduct(n / d + 1, q, d);
    }
  }

  lemma OneFewerRange(c: nat, step: nat, n: nat)
    requires c > 0 && c * step <= n && c <= step + 1
    ensures (c - 1) * (step + 1) <= n
  {
    assert (c - 1) * (step + 1) == c * step - (step + 1 - c);
  }

  lemma QuotientFits(n: nat, d: nat)
    requires d > 0
    ensures d * (n / d) <= n
  {}

  /** Up to 65536 chunks the pool makes exactly as many ranges as asked for. */
  lemma SmallCountsAreExact(chunks: nat)
    requires 0 < chunks <= 65536
    ensures RangesFrom(NONCE_MAX / chunks, 0) == chunks
  {
    var step := NONCE_MAX / chunks;
    MonotoneProduct(chunks, 65536, 65535);
    QuotientAtLeast(NONCE_MAX, chunks, 65535);
    QuotientFits(NONCE_MAX, chunks);
    OneFewerRange(chunks, step, NONCE_MAX);
    RangesPerTimestamp(chunks);
  }

  /** One more than that and the ranges are one short. */
  lemma LargeCountExample()
    ensures RangesFrom(NONCE_MAX / 65537, 0) < 65537
  {
    RangesPerTimestamp(65537);
  }

  /** The same of the hand-outs: every timestamp still due in full contributes at most `chunks` ranges, and exactly that
      many when `chunks - 1` ranges of the common length still leave a nonce over; so for all counts up to 65536. */
  lemma CountsInDrain(p: Pool, t: nat)
    requires Finite(p) && p.timestamp <= t <= p.timestampMax && (t == p.timestamp ==> p.nonce == 0)
    ensures CountAt(Drain(p), t) <= p.chunks
    ensures CountAt(Drain(p), t) == p.chunks <==> (p.chunks - 1) * (4294967295 / p.chunks + 1) <= 4294967295
    ensures p.chunks <= 65536 ==> CountAt(Drain(p), t) == p.chunks
  {
    hide Drain, CountAt, RangesFrom;
    CountPerTimestamp(p, t);
    RangesPerTimestamp(p.chunks);
    if p.chunks <= 65536 {
      SmallCountsAreExact(p.chunks);
    }
  }

  /** A range starts at the pool's nonce and has the common length, unless the nonces end before. */
  lemma RangeLength(p: Pool)
    requires p.Wf() && !p.Empty()
    ensures Next(p).1.Some?
    ensures var r := Next(p).1.value;
            && r.timestamp == p.timestamp && r.lo == p.nonce
            && r.hi == Smaller(p.nonce + 4294967295 / p.chunks, 4294967295)
  {}

  function Smaller(a: nat, b: nat): nat {
    if a < b then a else b
  }

  // The ranges of one timestamp, of any pool.

  /** The `k`-th range cut from the nonces left at the pool's timestamp. */
  function RangeAt(p: Pool, k: nat): Range
    requires p.Wf()
  {
    var lo := p.nonce + k * (p.Step() + 1);
    Range(p.timestamp, lo, if lo + p.Step() > NONCE_MAX then NONCE_MAX else lo + p.Step())
  }

  function CountLeft(p: Pool): (c: nat)
    requires p.Wf()
    ensures c > 0
  {
    RangesFrom(p.Step(), p.nonce)
  }

  /** All but the last of the ranges end below the top nonce, the last one at it. */
  lemma OnlyLastEndsAtTop(p: Pool, k: nat)
    requires p.Wf() && k < CountLeft(p)
    ensures RangeAt(p, k).lo <= NONCE_MAX
    ensures RangeAt(p, k).hi == NONCE_MAX <==> k == CountLeft(p) - 1
    ensures k < CountLeft(p) - 1 ==> RangeAt(p, k + 1).lo == RangeAt(p, k).hi + 1
  {
    hide RangesFrom, Pool.Step;
    var c, w := CountLeft(p), p.Step() + 1;
    RangesFromIsCeiling(p.Step(), p.nonce);
    MonotoneProduct(k, c - 1, w);
    Distribute(k, w);
    Distribute(c - 1, w);
    if k < c - 1 {
      MonotoneProduct(k + 1, c - 1, w);
    }
  }

  lemma FirstRange(p: Pool)
    requires p.Wf()
    ensures RangeAt(p, 0).lo == p.nonce
  {}

  /** One call on the pool that stands at the start of its `k`-th range. */
  lemma CallOnRange(p: Pool, k: nat)
    requires p.Wf() && !p.Empty() && RangeAt(p, k).lo <= NONCE_MAX
    ensures
      var r := RangeAt(p, k);
      Next(p.(nonce := r.lo))
      == (if r.hi == NONCE_MAX then p.(timestamp := (p.timestamp + 1) % TWO_32, nonce := 0)
          else p.(nonce := r.hi + 1), Some(r))
  {
    hide Pool.Step;
    assert p.(nonce := RangeAt(p, k).lo).Step() == p.Step() by {
      StepKept(p, RangeAt(p, k).lo);
    }
  }

  lemma StepKept(p: Pool, n: nat)
    requires p.Wf() && n <= NONCE_MAX
    ensures p.(nonce := n).Step() == p.Step()
  {}

  lemma Distribute(k: nat, w: nat)
    ensures (k + 1) * w == k * w + w
  {}

  /** The calls on one timestamp, whatever the pool's last timestamp is: call `k` hands out the `k`-th range, and after
      the last of them the pool is at the next timestamp, in 32 bits, and nonce 0. */
  lemma {:induction false} TimestampCalls(p: Pool, k: nat)
    requires p.Wf() && !p.Empty() && k <= CountLeft(p)
    ensures k < CountLeft(p) ==> RangeAt(p, k).lo <= NONCE_MAX && After(p, k) == p.(nonce := RangeAt(p, k).lo)
    ensures k < CountLeft(p) ==> Next(After(p, k)).1 == Some(RangeAt(p, k))
    ensures k == CountLeft(p) ==> After(p, k) == p.(timestamp := (p.timestamp + 1) % TWO_32, nonce := 0)
  {
    hide CountLeft, RangeAt, Next;
    if k > 0 {
      TimestampCalls(p, k - 1);
      OnlyLastEndsAtTop(p, k - 1);
      CallOnRange(p, k - 1);
    } else {
      FirstRange(p);
    }
    if k < CountLeft(p) {
      OnlyLastEndsAtTop(p, k);
      CallOnRange(p, k);
    }
  }

  lemma WhichRange(n: nat, a: nat, w: nat, c: nat) returns (k: nat)
    requires w > 0 && a <= n < a + c * w
    ensures k < c && a + k * w <= n < a + k * w + w
  {
    k := (n - a) / w;
    assert n - a == k * w + (n - a) % w;
    if k >= c {
      MonotoneProduct(c, k, w);
    }
  }

  ghost predicate InSomeRange(p: Pool, n: nat)
    requires p.Wf()
  {
    exists k: nat :: k < CountLeft(p) && RangeAt(p, k).Has(p.timestamp, n)
  }

  lemma RangesCover(p: Pool, n: nat)
    requires p.Wf() && p.nonce <= n <= NONCE_MAX
    ensures InSomeRange(p, n)
  {
    hide RangesFrom, Pool.Step;
    RangesFromIsCeiling(p.Step(), p.nonce);
    var k := WhichRange(n, p.nonce, p.Step() + 1, CountLeft(p));
    assert RangeAt(p, k).Has(p.timestamp, n);
  }

  lemma RangesApart(p: Pool, i: nat, j: nat)
    requires p.Wf() && i < j < CountLeft(p)
    ensures RangeAt(p, i).Before(RangeAt(p, j))
  {
    hide CountLeft, Pool.Step;
    MonotoneProduct(i + 1, j, p.Step() + 1);
    Distribute(i, p.Step() + 1);
  }

  /** They tile the nonces left at the timestamp: every one lies in a range, no range has any other, and the ranges are
      in strictly increasing order. */
  lemma RangesTile(p: Pool)
    requires p.Wf()
    ensures forall n: nat :: InSomeRange(p, n) <==> p.nonce <= n <= NONCE_MAX
    ensures forall i: nat, j: nat :: i < j < CountLeft(p) ==> RangeAt(p, i).Before(RangeAt(p, j))
  {
    hide CountLeft, Pool.Step;
    forall n: nat | p.nonce <= n <= NONCE_MAX
      ensures InSomeRange(p, n)
    {
      RangesCover(p, n);
    }
    forall i: nat, j: nat | i < j < CountLeft(p)
      ensures RangeAt(p, i).Before(RangeAt(p, j))
    {
      RangesApart(p, i, j);
    }
  }
}
