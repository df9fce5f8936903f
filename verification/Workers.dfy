/** The parallel search of main_block_solver.c as a state machine: N workers, one mutex, the shared pool. A step is one
    action of one worker, so a run is any interleaving. The mutex section is cut at its accesses to the pool. */
module Workers {
  import opened Bytes
  import opened BlockHeader
  import opened FindNonce
  import opened TaskPool
  import opened Wrappers

  /** Where a worker is. In the mutex: about to read the pool; holding what it read; about to unlock. */
  datatype Pc =
    | Wants
    | Reading
    | Writing(a: nat, b: nat, t: nat)
    | Leaving(task: Option<Range>)
    | Scanning(range: Range, n: nat)
    | Found(range: Range, n: nat)
    | Stopped(sawEmpty: bool)
  {
    predicate InMutex() {
      Reading? || Writing? || Leaving?
    }

    /** The worker answers for the range: it has been handed it and has not finished with it. */
    predicate Owns(r: Range) {
      this == Leaving(Some(r)) || (Scanning? && range == r) || (Found? && range == r)
    }
  }

  datatype Config = Config(header: Header, target: seq<byte>, pool: Pool, workers: nat) {
    predicate Wf() {
      header.Wf() && |target| == 32 && pool.Wf() && pool.nonce == 0 && workers > 0
    }

    /** The search grid: every timestamp of the pool with every 32-bit nonce. */
    predicate Due(t: nat, n: nat) {
      pool.timestamp <= t <= pool.timestampMax && n <= NONCE_MAX
    }

    predicate Hit(t: nat, n: nat)
      requires Wf()
    {
      t < TWO_32 && n < TWO_32 && Meets(header.(timestamp := t, nonce := n), target)
    }
  }

  /** `handed` and `missed` are history: the ranges handed out so far, the candidates hashed without success. */
  datatype State = State(pool: Pool, lock: Option<nat>, pcs: seq<Pc>, report: Option<(nat, nat)>,
                         handed: seq<Range>, missed: set<(nat, nat)>) {
    predicate At(w: nat) {
      w < |pcs|
    }

    function Goto(w: nat, pc: Pc): State
      requires At(w)
    {
      this.(pcs := pcs[w := pc])
    }
  }

  function Init(cfg: Config): State {
    State(cfg.pool, None, seq(cfg.workers, _ => Wants), None, [], {})
  }

  // The actions of worker `w`.

  ghost predicate Ready(s: State, w: nat) {
    s.At(w) && s.pool.Wf() && !s.pcs[w].Stopped?
  }

  /** The next action of worker `w`, by where it is. */
  function Move(cfg: Config, s: State, w: nat): State
    requires cfg.Wf() && Ready(s, w)
  {
    match s.pcs[w]
    // Lock.
    case Wants => s.Goto(w, Reading).(lock := Some(w))
    // Read the pool.
    case Reading => s.Goto(w, Writing(s.pool.nonce, s.pool.Last(), s.pool.timestamp))
    // Write it, from what was read: right only because nobody else has written in between.
    case Writing(a, b, t) =>
      if t > s.pool.timestampMax then s.Goto(w, Leaving(None))
      else
        var pool := if b == NONCE_MAX then s.pool.(timestamp := (s.pool.timestamp + 1) % TWO_32, nonce := 0)
                    else s.pool.(nonce := b + 1);
        s.Goto(w, Leaving(Some(Range(t, a, b)))).(pool := pool, handed := s.handed + [Range(t, a, b)])
    // Unlock.
    case Leaving(task) =>
      s.Goto(w, if task.Some? then Scanning(task.value, task.value.lo) else Stopped(true)).(lock := None)
    // Test one nonce.
    case Scanning(r, n) =>
      if n > r.hi then s.Goto(w, Wants)
      else if cfg.Hit(r.timestamp, n) then s.Goto(w, Found(r, n))
      else s.Goto(w, Scanning(r, n + 1)).(missed := s.missed + {(r.timestamp, n)})
    // Report, which exits the process.
    case Found(r, n) => s.(report := Some((r.timestamp, n)))
  }

  ghost predicate Moves(cfg: Config, s: State, s': State, w: nat)
    requires cfg.Wf()
  {
    Ready(s, w) && (s.pcs[w] == Wants ==> s.lock == None) && s' == Move(cfg, s, w)
  }

  /** A failing lock call ends the worker. */
  ghost predicate LockFails(s: State, s': State, w: nat) {
    s.At(w) && s.pcs[w] == Wants && s' == s.Goto(w, Stopped(false))
  }

  ghost predicate Acts(cfg: Config, s: State, s': State, w: nat)
    requires cfg.Wf()
  {
    Moves(cfg, s, s', w) || LockFails(s, s', w)
  }

  ghost predicate Step(cfg: Config, s: State, s': State)
    requires cfg.Wf()
  {
    s.report == None && exists w: nat :: Acts(cfg, s, s', w)
  }

  ghost predicate IsRun(cfg: Config, run: seq<State>)
    requires cfg.Wf()
  {
    && |run| > 0 && run[0] == Init(cfg)
    && forall i :: 0 <= i < |run| - 1 ==> Step(cfg, run[i], run[i + 1])
  }

  // What every reachable state keeps.

  ghost predicate Exclusive(s: State) {
    && (s.lock.Some? ==> s.At(s.lock.value))
    && forall w: nat :: s.At(w) ==> (s.pcs[w].InMutex() <==> s.lock == Some(w))
  }

  ghost predicate SnapshotsCurrent(s: State) {
    && s.pool.Wf()
    && forall w: nat :: s.At(w) && s.pcs[w].Writing? ==>
         s.pcs[w] == Writing(s.pool.nonce, s.pool.Last(), s.pool.timestamp)
  }

  /** The hand-outs so far are those of as many calls on the initial pool, in order, and left the pool as it is. */
  ghost predicate Serial(cfg: Config, s: State)
    requires cfg.Wf()
  {
    && s.pool == After(cfg.pool, |s.handed|)
    && forall k: nat :: k < |s.handed| ==> Next(After(cfg.pool, k)).1 == Some(s.handed[k])
  }

  ghost predicate MissedBelow(s: State, r: Range, n: nat) {
    forall k: nat :: r.lo <= k < n ==> (r.timestamp, k) in s.missed
  }

  ghost predicate OnTask(cfg: Config, s: State, pc: Pc)
    requires cfg.Wf()
  {
    match pc
    case Leaving(Some(r)) => r in s.handed && r.lo <= r.hi
    case Scanning(r, n) => r in s.handed && r.lo <= n <= r.hi + 1 && MissedBelow(s, r, n)
    case Found(r, n) => r in s.handed && r.lo <= n <= r.hi && MissedBelow(s, r, n) && cfg.Hit(r.timestamp, n)
    case _ => true
  }

  ghost predicate Working(cfg: Config, s: State)
    requires cfg.Wf()
  {
    forall w: nat :: s.At(w) ==> OnTask(cfg, s, s.pcs[w])
  }

  ghost predicate Answered(s: State, r: Range) {
    MissedBelow(s, r, r.hi + 1) || exists w: nat :: s.At(w) && s.pcs[w].Owns(r)
  }

  /** No handed range is lost: it has been scanned to the end, or a worker still answers for it. */
  ghost predicate Accounted(s: State) {
    forall r :: r in s.handed ==> Answered(s, r)
  }

  ghost predicate MissesMiss(cfg: Config, s: State)
    requires cfg.Wf()
  {
    forall c :: c in s.missed ==> !cfg.Hit(c.0, c.1)
  }

  ghost predicate EmptySeen(s: State) {
    (exists w: nat :: s.At(w) && (s.pcs[w] == Stopped(true) || s.pcs[w] == Leaving(None))) ==> s.pool.Empty()
  }

  /** What is reported meets the target, lies in the grid, and is the first of its range to do so. */
  ghost predicate ReportRight(cfg: Config, s: State)
    requires cfg.Wf()
  {
    s.report.Some? ==>
      var (t, n) := s.report.value;
      && cfg.Hit(t, n)
      && exists r :: r in s.handed && r.Has(t, n) && MissedBelow(s, r, n)
  }

  ghost predicate Inv(cfg: Config, s: State)
    requires cfg.Wf()
  {
    && |s.pcs| == cfg.workers
    && Exclusive(s) && SnapshotsCurrent(s) && Serial(cfg, s) && Working(cfg, s) && Accounted(s)
    && MissesMiss(cfg, s) && EmptySeen(s) && ReportRight(cfg, s)
  }

  lemma InitKeeps(cfg: Config)
    requires cfg.Wf()
    ensures Inv(cfg, Init(cfg))
  {}

  /** A worker that changes neither pool nor history, nor loses a range, keeps the invariant of ranges. */
  lemma AnsweredKept(s: State, s': State, w: nat, r: Range)
    requires s.At(w) && |s'.pcs| == |s.pcs| && s.missed <= s'.missed
    requires forall v: nat :: s.At(v) && v != w ==> s'.pcs[v] == s.pcs[v]
    requires Answered(s, r)
    requires s.pcs[w].Owns(r) ==> s'.pcs[w].Owns(r) || MissedBelow(s', r, r.hi + 1)
    ensures Answered(s', r)
  {
    if !MissedBelow(s, r, r.hi + 1) {
      var v: nat :| s.At(v) && s.pcs[v].Owns(r);
      if v != w {
        assert s'.pcs[v].Owns(r);
      }
    }
  }

  lemma LockKeeps(cfg: Config, s: State, s': State, w: nat)
    requires cfg.Wf() && Inv(cfg, s) && s.report == None
    requires (Moves(cfg, s, s', w) && s.pcs[w] == Wants) || LockFails(s, s', w)
    ensures Inv(cfg, s')
  {
    hide After, Next, Config.Hit;
    forall r | r in s'.handed
      ensures Answered(s', r)
    {
      AnsweredKept(s, s', w, r);
    }
  }

  lemma ReadKeeps(cfg: Config, s: State, s': State, w: nat)
    requires cfg.Wf() && Inv(cfg, s) && s.report == None && Moves(cfg, s, s', w) && s.pcs[w] == Reading
    ensures Inv(cfg, s')
  {
    hide After, Next, Config.Hit;
    forall r | r in s'.handed
      ensures Answered(s', r)
    {
      AnsweredKept(s, s', w, r);
    }
  }

  /** A write is one call of the hand-out function on the pool as it is now. */
  lemma WriteIsNext(cfg: Config, s: State, s': State, w: nat)
    requires cfg.Wf() && Exclusive(s) && SnapshotsCurrent(s) && Moves(cfg, s, s', w) && s.pcs[w].Writing?
    ensures s'.At(w) && s'.pcs[w].Leaving? && (s'.pool, s'.pcs[w].task) == Next(s.pool)
    ensures s'.handed == if s.pool.Empty() then s.handed else s.handed + [s.pool.NextRange()]
  {}

  lemma AfterNext(p: Pool, k: nat)
    requires p.Wf()
    ensures After(p, k + 1) == Next(After(p, k)).0
  {}

  lemma WriteKeepsSerial(cfg: Config, s: State, s': State, w: nat)
    requires cfg.Wf() && Exclusive(s) && SnapshotsCurrent(s) && Serial(cfg, s)
    requires Moves(cfg, s, s', w) && s.pcs[w].Writing?
    ensures Serial(cfg, s') && (s'.pcs[w] == Leaving(None) ==> s'.pool.Empty())
    ensures s.pool.Empty() ==> s'.pool == s.pool
  {
    WriteIsNext(cfg, s, s', w);
    AfterNext(cfg.pool, |s.handed|);
    hide After, Move;
  }

  lemma WriteKeeps(cfg: Config, s: State, s': State, w: nat)
    requires cfg.Wf() && Inv(cfg, s) && s.report == None && Moves(cfg, s, s', w) && s.pcs[w].Writing?
    ensures Inv(cfg, s')
  {
    hide After, Next, Serial, Config.Hit;
    WriteKeepsSerial(cfg, s, s', w);
    forall r | r in s'.handed
      ensures Answered(s', r)
    {
      if r in s.handed {
        AnsweredKept(s, s', w, r);
      } else {
        assert s'.pcs[w].Owns(r);
      }
    }
  }

  lemma ReleaseKeeps(cfg: Config, s: State, s': State, w: nat)
    requires cfg.Wf() && Inv(cfg, s) && s.report == None && Moves(cfg, s, s', w) && s.pcs[w].Leaving?
    ensures Inv(cfg, s')
  {
    hide After, Next, Config.Hit;
    forall r | r in s'.handed
      ensures Answered(s', r)
    {
      AnsweredKept(s, s', w, r);
    }
  }

  lemma TestKeepsRanges(cfg: Config, s: State, s': State, w: nat)
    requires cfg.Wf() && Moves(cfg, s, s', w) && s.pcs[w].Scanning? && Working(cfg, s) && Accounted(s)
    ensures Working(cfg, s') && Accounted(s')
  {
    hide Config.Hit;
    assert OnTask(cfg, s, s.pcs[w]);
    forall r | r in s'.handed
      ensures Answered(s', r)
    {
      AnsweredKept(s, s', w, r);
    }
    forall v: nat | s'.At(v)
      ensures OnTask(cfg, s', s'.pcs[v])
    {
      assert OnTask(cfg, s, s.pcs[v]);
    }
  }

  lemma TestKeeps(cfg: Config, s: State, s': State, w: nat)
    requires cfg.Wf() && Inv(cfg, s) && s.report == None && Moves(cfg, s, s', w) && s.pcs[w].Scanning?
    ensures Inv(cfg, s')
  {
    hide After, Next, Config.Hit, Working, Accounted;
    TestKeepsRanges(cfg, s, s', w);
  }

  lemma ReportKeeps(cfg: Config, s: State, s': State, w: nat)
    requires cfg.Wf() && Inv(cfg, s) && s.report == None && Moves(cfg, s, s', w) && s.pcs[w].Found?
    ensures Inv(cfg, s')
  {
    hide After, Next, Config.Hit;
    forall r | r in s'.handed
      ensures Answered(s', r)
    {
      AnsweredKept(s, s', w, r);
    }
  }

  lemma StepKeeps(cfg: Config, s: State, s': State)
    requires cfg.Wf() && Inv(cfg, s) && Step(cfg, s, s')
    ensures Inv(cfg, s')
  {
    hide Inv, Move;
    var w: nat :| Acts(cfg, s, s', w);
    match s.pcs[w] {
      case Wants => LockKeeps(cfg, s, s', w);
      case Reading => ReadKeeps(cfg, s, s', w);
      case Writing(_, _, _) => WriteKeeps(cfg, s, s', w);
      case Leaving(_) => ReleaseKeeps(cfg, s, s', w);
      case Scanning(_, _) => TestKeeps(cfg, s, s', w);
      case Found(_, _) => ReportKeeps(cfg, s, s', w);
      case Stopped(_) => assert false;
    }
  }

  /** Every state of every run, whatever the interleaving. */
  lemma {:induction false} RunKeeps(cfg: Config, run: seq<State>, i: nat)
    requires cfg.Wf() && IsRun(cfg, run) && i < |run|
    ensures Inv(cfg, run[i])
  {
    if i == 0 {
      InitKeeps(cfg);
    } else {
      RunKeeps(cfg, run, i - 1);
      StepKeeps(cfg, run[i - 1], run[i]);
    }
  }

  /** No two workers are in the mutex section at once. */
  lemma MutexExcludes(cfg: Config, run: seq<State>, i: nat, v: nat, w: nat)
    requires cfg.Wf() && IsRun(cfg, run) && i < |run| && run[i].At(v) && run[i].At(w)
    ensures run[i].pcs[v].InMutex() && run[i].pcs[w].InMutex() ==> v == w
  {
    RunKeeps(cfg, run, i);
  }

  /** Under every interleaving the hand-outs are the serial ones, in order: call `k` on the initial pool hands out the
      `k`-th of them, and a write, made from values read earlier, is one call on the pool as it is now. */
  lemma HandOutsAreSerial(cfg: Config, run: seq<State>, i: nat)
    requires cfg.Wf() && IsRun(cfg, run) && i < |run|
    ensures forall k: nat :: k < |run[i].handed| ==> Next(After(cfg.pool, k)).1 == Some(run[i].handed[k])
    ensures Finite(cfg.pool) ==> run[i].handed <= Drain(cfg.pool)
    ensures forall s', w: nat :: Moves(cfg, run[i], s', w) && run[i].pcs[w].Writing? ==>
      s'.At(w) && s'.pcs[w].Leaving? && (s'.pool, s'.pcs[w].task) == Next(run[i].pool)
  {
    hide Drain, After, Next, Move;
    RunKeeps(cfg, run, i);
    forall s', w: nat | Moves(cfg, run[i], s', w) && run[i].pcs[w].Writing?
      ensures s'.At(w) && s'.pcs[w].Leaving? && (s'.pool, s'.pcs[w].task) == Next(run[i].pool)
    {
      WriteIsNext(cfg, run[i], s', w);
    }
    if Finite(cfg.pool) {
      HandedIsDrained(cfg, run[i]);
    }
  }

  lemma HandedIsDrained(cfg: Config, s: State)
    requires cfg.Wf() && Serial(cfg, s) && Finite(cfg.pool)
    ensures Finite(s.pool) && s.handed <= Drain(cfg.pool)
    ensures s.pool.Empty() ==> s.handed == Drain(cfg.pool)
  {
    var all := Drain(cfg.pool);
    CallsFollowDrain(cfg.pool, |s.handed|);
    hide Drain, After;
    forall k: nat | k < |s.handed|
      ensures k < |all| && s.handed[k] == all[k]
    {
      CallsFollowDrain(cfg.pool, k);
    }
  }

  lemma HandedInBounds(cfg: Config, s: State, r: Range)
    requires cfg.Wf() && Serial(cfg, s) && r in s.handed
    ensures exists k: nat :: Next(After(cfg.pool, k)).1 == Some(r)
    ensures r.timestamp < TWO_32 && r.lo <= r.hi <= NONCE_MAX
  {
    hide After;
    var k: nat :| k < |s.handed| && s.handed[k] == r;
    assert Next(After(cfg.pool, k)).1 == Some(r);
  }

  // What the invariant says at the end.

  /** Soundness, at any time and for any pool: a reported candidate meets the target, and it is the first to do so of a
      range that the hand-out function gives; of a pool that empties, it lies in the grid. */
  lemma ReportsAreHits(cfg: Config, run: seq<State>, i: nat)
    requires cfg.Wf() && IsRun(cfg, run) && i < |run| && run[i].report.Some?
    ensures var (t, n) := run[i].report.value;
            && cfg.Hit(t, n) && (Finite(cfg.pool) ==> cfg.Due(t, n))
            && exists k: nat, r :: Next(After(cfg.pool, k)).1 == Some(r) && r.Has(t, n)
                                && forall m: nat :: r.lo <= m < n ==> !cfg.Hit(t, m)
  {
    hide Drain, After, Next, Config.Hit;
    var s := run[i];
    RunKeeps(cfg, run, i);
    var (t, n) := s.report.value;
    var r :| r in s.handed && r.Has(t, n) && MissedBelow(s, r, n);
    HandedInBounds(cfg, s, r);
    forall m: nat | r.lo <= m < n
      ensures !cfg.Hit(t, m)
    {
      assert (t, m) in s.missed;
    }
    if Finite(cfg.pool) {
      HandedIsDrained(cfg, s);
      DrainPartitions(cfg.pool);
      var j :| 0 <= j < |s.handed| && s.handed[j] == r;
      assert Drain(cfg.pool)[j].Has(t, n);
      assert Remaining(cfg.pool, t, n);
    }
  }

  /** Completeness: when every worker has stopped and one of them did because the pool was empty, the whole grid has
      been hashed and no candidate of it meets the target. */
  lemma StoppedMeansSearched(cfg: Config, run: seq<State>, i: nat)
    requires cfg.Wf() && IsRun(cfg, run) && i < |run|
    requires forall w: nat :: run[i].At(w) ==> run[i].pcs[w].Stopped?
    requires exists w: nat :: run[i].At(w) && run[i].pcs[w] == Stopped(true)
    ensures Finite(cfg.pool)
    ensures forall t: nat, n: nat :: cfg.Due(t, n) ==> (t, n) in run[i].missed && !cfg.Hit(t, n)
  {
    hide Config.Hit, After, Next, Drain;
    var s := run[i];
    RunKeeps(cfg, run, i);
    assert s.pool.Empty() && s.pool.timestampMax == cfg.pool.timestampMax;
    HandedIsDrained(cfg, s);
    DrainPartitions(cfg.pool);
    forall t: nat, n: nat | cfg.Due(t, n)
      ensures (t, n) in s.missed && !cfg.Hit(t, n)
    {
      assert Remaining(cfg.pool, t, n);
      var j :| 0 <= j < |s.handed| && s.handed[j].Has(t, n);
      assert Answered(s, s.handed[j]);
      assert (t, n) in s.missed;
    }
  }

  /** The header of the task that scans `r`. */
  function TaskHeader(cfg: Config, r: Range): Header {
    cfg.header.(timestamp := r.timestamp, nonce := r.lo)
  }

  /** A worker ends its scan of a range with the answer of `find_nonce` on that task: it is about to report a nonce only
      if that is the one to find, and it goes past the end of the range only if there is none. */
  lemma ScanIsFind(cfg: Config, run: seq<State>, i: nat, w: nat, r: Range, n: nat)
    requires cfg.Wf() && IsRun(cfg, run) && i < |run| && run[i].At(w)
    requires run[i].pcs[w] == Found(r, n) || (run[i].pcs[w] == Scanning(r, n) && n > r.hi)
    ensures TaskHeader(cfg, r).Wf() && r.lo <= r.hi <= NONCE_MAX
    ensures Finds(TaskHeader(cfg, r), cfg.target, r.lo, r.hi, if run[i].pcs[w].Found? then Some(n) else None)
  {
    hide After, Next, Meets;
    var s := run[i];
    RunKeeps(cfg, run, i);
    assert OnTask(cfg, s, s.pcs[w]);
    HandedInBounds(cfg, s, r);
    forall k: nat | r.lo <= k < n
      ensures !Meets(TaskHeader(cfg, r).(nonce := k), cfg.target)
    {
      assert (r.timestamp, k) in s.missed;
      assert !cfg.Hit(r.timestamp, k);
    }
  }

  // Every run ends.

  function Size(r: Range): nat {
    if r.lo <= r.hi then r.hi - r.lo + 1 else 0
  }

  /** An upper bound of the steps a worker can still take before it next wants a range. */
  function Rank(pc: Pc): nat {
    match pc
    case Wants => 5
    case Reading => 4
    case Writing(_, _, _) => 3
    case Leaving(None) => 1
    case Leaving(Some(r)) => Size(r) + 7
    case Scanning(r, n) => (if n <= r.hi then r.hi - n + 1 else 0) + 6
    case Found(_, _) => 0
    case Stopped(_) => 0
  }

  function Ranks(pcs: seq<Pc>): nat
    decreases |pcs|
  {
    if pcs == [] then 0 else Rank(pcs[0]) + Ranks(pcs[1..])
  }

  function Work(rs: seq<Range>): nat
    decreases |rs|
  {
    if rs == [] then 0 else Size(rs[0]) + 5 + Work(rs[1..])
  }

  function Measure(s: State): nat
    requires Finite(s.pool)
  {
    Work(Drain(s.pool)) + Ranks(s.pcs) + (if s.report == None then 1 else 0)
  }

  lemma {:induction false} RanksUpdate(pcs: seq<Pc>, w: nat, pc: Pc)
    requires w < |pcs|
    ensures Ranks(pcs[w := pc]) == Ranks(pcs) - Rank(pcs[w]) + Rank(pc)
    decreases |pcs|
  {
    if w == 0 {
      assert pcs[w := pc][1..] == pcs[1..];
    } else {
      assert pcs[w := pc][1..] == pcs[1..][w - 1 := pc];
      RanksUpdate(pcs[1..], w - 1, pc);
    }
  }

  /** Worker `w` moves to a cheaper place and the pool is as before. */
  lemma MoveDecreases(s: State, s': State, w: nat)
    requires s.At(w) && s'.At(w) && Finite(s.pool) && s'.pool == s.pool && s'.report == s.report
    requires s'.pcs == s.pcs[w := s'.pcs[w]] && Rank(s'.pcs[w]) < Rank(s.pcs[w])
    ensures Measure(s') < Measure(s)
  {
    hide Drain, Work, Rank, Ranks;
    RanksUpdate(s.pcs, w, s'.pcs[w]);
  }

  lemma DrainStep(p: Pool)
    requires Finite(p) && !p.Empty()
    ensures Finite(p.Advance()) && Drain(p) == [p.NextRange()] + Drain(p.Advance())
  {}

  lemma HandOutDecreases(cfg: Config, s: State, s': State, w: nat)
    requires cfg.Wf() && Finite(s.pool) && Inv(cfg, s) && Moves(cfg, s, s', w) && s.pcs[w].Writing? && !s.pool.Empty()
    ensures Finite(s'.pool) && Measure(s') < Measure(s)
  {
    hide Drain, Ranks, Working, Accounted, MissesMiss, EmptySeen, ReportRight, Config.Hit;
    RanksUpdate(s.pcs, w, s'.pcs[w]);
    DrainStep(s.pool);
    var r, rest := s.pool.NextRange(), Drain(s.pool.Advance());
    assert s'.pool == s.pool.Advance() && s'.pcs[w] == Leaving(Some(r));
    assert ([r] + rest)[1..] == rest;
    assert Work(Drain(s.pool)) == Size(r) + 5 + Work(rest);
  }

  lemma StepDecreases(cfg: Config, s: State, s': State)
    requires cfg.Wf() && Finite(s.pool) && Inv(cfg, s) && Step(cfg, s, s')
    ensures Finite(s'.pool) && Measure(s') < Measure(s)
  {
    hide Drain, After, Next, Config.Hit, Measure, Accounted, MissesMiss, EmptySeen, ReportRight;
    var w: nat :| Acts(cfg, s, s', w);
    if s.pcs[w].Found? {
      ReportDecreases(cfg, s, s', w);
    } else if s.pcs[w].Writing? && !s.pool.Empty() {
      HandOutDecreases(cfg, s, s', w);
    } else {
      assert OnTask(cfg, s, s.pcs[w]);
      MoveDecreases(s, s', w);
    }
  }

  lemma ReportDecreases(cfg: Config, s: State, s': State, w: nat)
    requires cfg.Wf() && Finite(s.pool) && Moves(cfg, s, s', w) && s.pcs[w].Found? && s.report == None
    ensures Finite(s'.pool) && Measure(s') < Measure(s)
  {}

  lemma {:induction false} RunIsShort(cfg: Config, run: seq<State>, i: nat)
    requires cfg.Wf() && Finite(cfg.pool) && IsRun(cfg, run) && i < |run|
    ensures Finite(run[i].pool) && i + Measure(run[i]) <= Measure(Init(cfg))
  {
    hide Measure, Step;
    RunKeeps(cfg, run, i);
    if i > 0 {
      RunIsShort(cfg, run, i - 1);
      RunKeeps(cfg, run, i - 1);
      StepDecreases(cfg, run[i - 1], run[i]);
    }
  }

  /** Termination under every schedule, for a pool that empties: no run has more states than the initial measure
      allows. */
  lemma RunsEnd(cfg: Config, run: seq<State>)
    requires cfg.Wf() && Finite(cfg.pool) && IsRun(cfg, run)
    ensures |run| <= Measure(Init(cfg)) + 1
  {
    hide Measure;
    RunIsShort(cfg, run, |run| - 1);
  }

  /** The run cannot go on. */
  ghost predicate Stuck(cfg: Config, s: State)
    requires cfg.Wf()
  {
    forall s' :: !Step(cfg, s, s')
  }

  // Only a failing lock call ends a worker early.

  ghost predicate LockFailsAt(run: seq<State>, j: nat, w: nat) {
    j + 1 < |run| && LockFails(run[j], run[j + 1], w)
  }

  /** A lock call of worker `w` failed in the first `i` steps of the run. */
  ghost predicate LockFailedBefore(run: seq<State>, i: nat, w: nat) {
    exists j: nat :: j < i && LockFailsAt(run, j, w)
  }

  lemma StopsEarly(cfg: Config, s: State, s': State, w: nat)
    requires cfg.Wf() && Inv(cfg, s) && Step(cfg, s, s') && s.At(w)
    ensures s'.At(w) && (s'.pcs[w] == Stopped(false) <==> s.pcs[w] == Stopped(false) || LockFails(s, s', w))
  {
    hide Inv, Config.Hit;
    var v: nat :| Acts(cfg, s, s', v);
  }

  /** A worker has stopped without seeing the pool empty exactly when one of its lock calls has failed. */
  lemma {:induction false} StoppedEarlyExactly(cfg: Config, run: seq<State>, i: nat, w: nat)
    requires cfg.Wf() && IsRun(cfg, run) && i < |run| && w < cfg.workers
    ensures run[i].At(w) && (run[i].pcs[w] == Stopped(false) <==> LockFailedBefore(run, i, w))
  {
    hide Inv, Acts, LockFails;
    if i > 0 {
      StoppedEarlyExactly(cfg, run, i - 1, w);
      RunKeeps(cfg, run, i - 1);
      StopsEarly(cfg, run[i - 1], run[i], w);
      assert LockFailedBefore(run, i, w) <==>
             LockFailedBefore(run, i - 1, w) || LockFailsAt(run, i - 1, w);
    }
  }

  /** No step of the run is a failing lock call of worker `w`. */
  ghost predicate Locks(run: seq<State>, w: nat) {
    |run| > 0 && !LockFailedBefore(run, |run| - 1, w)
  }

  ghost predicate SomeWorkerLocks(cfg: Config, run: seq<State>) {
    exists w: nat :: w < cfg.workers && Locks(run, w)
  }

  /** No deadlock: until a candidate is reported or every worker has stopped, some worker can move without any lock
      call failing - the holder of the mutex if there is one, else any worker that has not stopped. */
  lemma CanMove(cfg: Config, s: State)
    requires cfg.Wf() && Inv(cfg, s) && s.report == None
    requires exists w: nat :: s.At(w) && !s.pcs[w].Stopped?
    ensures exists s', w: nat :: Acts(cfg, s, s', w) && !LockFails(s, s', w)
    ensures !Stuck(cfg, s)
  {
    hide After, Next, Config.Hit;
    var v: nat :| s.At(v) && !s.pcs[v].Stopped?;
    var w := if s.lock.Some? then s.lock.value else v;
    var s' := Move(cfg, s, w);
    assert Acts(cfg, s, s', w) && !LockFails(s, s', w);
    assert Step(cfg, s, s');
  }

  /** The whole search: a run that cannot go on, in which some worker had no lock call fail, has reported a
      candidate exactly when the grid has one that meets the target; and if the pool never empties, it has reported
      one. */
  lemma MaximalRunDecides(cfg: Config, run: seq<State>)
    requires cfg.Wf() && IsRun(cfg, run)
    requires Stuck(cfg, run[|run| - 1]) && SomeWorkerLocks(cfg, run)
    ensures Finite(cfg.pool) ==>
      (run[|run| - 1].report.Some? <==> exists t: nat, n: nat :: cfg.Due(t, n) && cfg.Hit(t, n))
    ensures !Finite(cfg.pool) ==> run[|run| - 1].report.Some?
  {
    hide Drain, After, Next, Config.Hit, Acts, Stuck;
    var i := |run| - 1;
    var s := run[i];
    RunKeeps(cfg, run, i);
    if s.report.Some? {
      ReportsAreHits(cfg, run, i);
    } else {
      forall w: nat | s.At(w)
        ensures s.pcs[w].Stopped?
      {
        if !s.pcs[w].Stopped? {
          CanMove(cfg, s);
        }
      }
      var w: nat :| w < cfg.workers && Locks(run, w);
      StoppedEarlyExactly(cfg, run, i, w);
      assert s.pcs[w] == Stopped(true);
      StoppedMeansSearched(cfg, run, i);
    }
  }
}
