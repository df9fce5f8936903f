/** The search that `main` of main_block_solver.c sets up: the header's own timestamp, every nonce in twenty ranges,
    twenty workers, and the target its `bits` expand to. */
module Solver {
  import opened Bytes
  import opened BlockHeader
  import opened TaskPool
  import opened Wrappers
  import opened Workers
  import Int256

  const N: nat := 20

  function Setup(header: Header, target: seq<byte>): Config {
    Config(header, target, Pool(header.timestamp, header.timestamp, 0, N), N)
  }

  /** The number a hash must not exceed. */
  function Threshold(header: Header): nat
    requires 3 <= Int256.Exponent(header.bits) <= 32
  {
    Int256.Mantissa(header.bits) * Pow256(Int256.Exponent(header.bits) - 3)
  }

  /** Setting the timestamp and the nonce solves the block. */
  ghost predicate Solves(header: Header, t: nat, n: nat)
    requires header.Wf() && 3 <= Int256.Exponent(header.bits) <= 32 && t < TWO_32 && n < TWO_32
  {
    FromLittleEndian(header.(timestamp := t, nonce := n).Hash()) <= Threshold(header)
  }

  /** The target is the one 32-byte string of that value. */
  lemma TargetIsUnique(header: Header, s: seq<byte>, t: seq<byte>)
    requires 3 <= Int256.Exponent(header.bits) <= 32 && |s| == |t| == 32
    requires FromLittleEndian(s) == Threshold(header) && FromLittleEndian(t) == Threshold(header)
    ensures s == t
  {
    FromLittleEndianInjective(s, t);
  }

  lemma HitSolves(header: Header, target: seq<byte>, t: nat, n: nat)
    requires header.Wf() && |target| == 32 && t < TWO_32 && n < TWO_32
    requires 3 <= Int256.Exponent(header.bits) <= 32 && FromLittleEndian(target) == Threshold(header)
    ensures Setup(header, target).Hit(t, n) <==> Solves(header, t, n)
  {
    hide Header.Hash, FromLittleEndian, Pow256, Int256.Mantissa, Int256.Exponent, Meets;
    MeetsIsProofOfWork(header.(timestamp := t, nonce := n), target);
  }

  /** At any time, whatever the interleaving and the header, a report solves the block; it is for the header's own
      timestamp unless that is 0xFFFFFFFF, the one from which the counter wraps. */
  lemma ReportSolves(header: Header, target: seq<byte>, run: seq<State>, i: nat)
    requires header.Wf() && |target| == 32
    requires 3 <= Int256.Exponent(header.bits) <= 32 && FromLittleEndian(target) == Threshold(header)
    requires IsRun(Setup(header, target), run) && i < |run| && run[i].report.Some?
    ensures var (t, n) := run[i].report.value;
            && t < TWO_32 && n < TWO_32 && Solves(header, t, n)
            && (header.timestamp < NONCE_MAX ==> t == header.timestamp)
  {
    hide Solves, Threshold, Step, After, Next, Meets;
    var (t, n) := run[i].report.value;
    ReportsAreHits(Setup(header, target), run, i);
    HitSolves(header, target, t, n);
  }

  /** Whatever the interleaving, a run that cannot go on, and in which some worker had no lock call fail, has
      reported exactly when some nonce solves the block; from timestamp 0xFFFFFFFF on it has reported in any case. */
  lemma SolverDecides(header: Header, target: seq<byte>, run: seq<State>)
    requires header.Wf() && |target| == 32
    requires 3 <= Int256.Exponent(header.bits) <= 32 && FromLittleEndian(target) == Threshold(header)
    requires var cfg := Setup(header, target);
             IsRun(cfg, run) && Stuck(cfg, run[|run| - 1]) && SomeWorkerLocks(cfg, run)
    ensures header.timestamp < NONCE_MAX ==>
      (run[|run| - 1].report.Some? <==> exists n: nat :: n < TWO_32 && Solves(header, header.timestamp, n))
    ensures header.timestamp == NONCE_MAX ==> run[|run| - 1].report.Some?
  {
    hide Solves, Threshold, Config.Hit, Step, Stuck, SomeWorkerLocks;
    var cfg, report := Setup(header, target), run[|run| - 1].report;
    MaximalRunDecides(cfg, run);
    if report.Some? {
      ReportSolves(header, target, run, |run| - 1);
      assert Solves(header, report.value.0, report.value.1);
    } else {
      forall n: nat | n < TWO_32
        ensures !Solves(header, header.timestamp, n)
      {
        assert cfg.Due(header.timestamp, n);
        HitSolves(header, target, header.timestamp, n);
      }
    }
  }

  const CHUNK: nat := 214748365

  /** The pool before its `k`-th hand-out. */
  function PoolAt(p: Pool, k: nat): Pool
    requires k <= N
  {
    if k < N then p.(nonce := k * CHUNK) else p.(timestamp := (p.timestamp + 1) % TWO_32)
  }

  lemma OneRange(p: Pool, k: nat)
    requires p.Wf() && p.chunks == N && p.nonce == 0 && !p.Empty() && k < N
    ensures var hi := if k < N - 1 then (k + 1) * CHUNK - 1 else NONCE_MAX;
            PoolAt(p, k).Wf() && Next(PoolAt(p, k)) == (PoolAt(p, k + 1), Some(Range(p.timestamp, k * CHUNK, hi)))
  {
    assert NONCE_MAX / N == CHUNK - 1;
  }

  /** The first twenty hand-outs cut the nonces of the header's timestamp into twenty ranges, the last one shorter; then
      the pool turns to the next timestamp. */
  lemma {:induction false} TwentyRanges(header: Header, target: seq<byte>, k: nat)
    requires header.Wf() && k <= N
    ensures var p := Setup(header, target).pool;
            && After(p, k) == PoolAt(p, k)
            && (k < N ==> Next(After(p, k)).1
                          == Some(Range(p.timestamp, k * CHUNK, if k < N - 1 then (k + 1) * CHUNK - 1 else NONCE_MAX)))
  {
    hide Next, PoolAt;
    var p := Setup(header, target).pool;
    if k > 0 {
      TwentyRanges(header, target, k - 1);
      OneRange(p, k - 1);
    } else {
      PoolStarts(p);
    }
    if k < N {
      OneRange(p, k);
    }
  }

  lemma PoolStarts(p: Pool)
    requires p.nonce == 0
    ensures PoolAt(p, 0) == p
  {}
}
