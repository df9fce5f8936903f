/** The Merkle root of bc_merkle_root.c: the level-by-level reduction inside one buffer, and what the root binds.
    The pair hash is any function `h`; Bitcoin's is the double SHA-256 of the two nodes. */
module Merkle {

  /** i * 2^l, by doubling. */
  function Scaled(i: nat, l: nat): (s: nat)
    ensures i == 0 ==> s == 0
  {
    if l == 0 then i else 2 * Scaled(i, l - 1)
  }

  function Pow2(l: nat): nat {
    Scaled(1, l)
  }

  lemma {:induction false} ScaledIsProduct(i: nat, l: nat)
    ensures Scaled(i, l) == i * Pow2(l)
  {
    if l > 0 {
      ScaledIsProduct(i, l - 1);
      assert 2 * (i * Pow2(l - 1)) == i * (2 * Pow2(l - 1));
    }
  }

  lemma {:induction false} ScaledDouble(i: nat, l: nat)
    ensures Scaled(2 * i, l) == 2 * Scaled(i, l)
  {
    if l > 0 {
      ScaledDouble(i, l - 1);
    }
  }

  lemma {:induction false} ScaledMonotone(i: nat, k: nat, l: nat)
    requires i <= k
    ensures Scaled(i, l) <= Scaled(k, l)
  {
    if l > 0 {
      ScaledMonotone(i, k, l - 1);
    }
  }

  /** The level above `xs`; the last node of an odd level is paired with itself. */
  function Level<T>(h: (T, T) -> T, xs: seq<T>): (ys: seq<T>)
    ensures |ys| == (|xs| + 1) / 2
  {
    seq((|xs| + 1) / 2, i requires 0 <= i < (|xs| + 1) / 2 =>
      h(xs[2 * i], xs[if 2 * i + 1 < |xs| then 2 * i + 1 else 2 * i]))
  }

  lemma LevelPair<T>(h: (T, T) -> T, xs: seq<T>, i: nat)
    requires 2 * i + 1 < |xs|
    ensures Level(h, xs)[i] == h(xs[2 * i], xs[2 * i + 1])
  {}

  lemma LevelLast<T>(h: (T, T) -> T, xs: seq<T>, i: nat)
    requires 2 * i + 1 == |xs|
    ensures Level(h, xs)[i] == h(xs[2 * i], xs[2 * i])
  {}

  lemma LevelAt<T>(h: (T, T) -> T, xs: seq<T>, i: nat)
    requires i < (|xs| + 1) / 2
    ensures Level(h, xs)[i] == h(xs[2 * i], xs[if 2 * i + 1 < |xs| then 2 * i + 1 else 2 * i])
  {}

  function Levels<T>(h: (T, T) -> T, xs: seq<T>, l: nat): (ys: seq<T>)
    requires |xs| > 0
    ensures |ys| > 0
  {
    if l == 0 then xs else Level(h, Levels(h, xs, l - 1))
  }

  function Root<T>(h: (T, T) -> T, xs: seq<T>): T
    requires |xs| > 0
    decreases |xs|
  {
    if |xs| == 1 then xs[0] else Root(h, Level(h, xs))
  }

  /** The number of rounds from `n` nodes to one. */
  function Height(n: nat): nat
    requires n > 0
  {
    if n == 1 then 0 else 1 + Height((n + 1) / 2)
  }

  /** `Height` is the ceiling of the base-2 logarithm. */
  lemma {:induction false} HeightIsCeilLog2(n: nat)
    requires n > 0
    ensures n <= Pow2(Height(n))
    ensures n > 1 ==> Pow2(Height(n) - 1) < n
  {
    if n > 1 {
      HeightIsCeilLog2((n + 1) / 2);
      if n > 2 {
        assert Pow2(Height(n) - 1) == 2 * Pow2(Height((n + 1) / 2) - 1);
      }
    }
  }

  /** Level `l` has the ceiling of n / 2^l nodes: node `i` exists exactly when it covers a leaf. */
  lemma LevelWidth<T>(h: (T, T) -> T, xs: seq<T>, l: nat, i: nat)
    requires |xs| > 0
    ensures i < |Levels(h, xs, l)| <==> i * Pow2(l) < |xs|
  {
    hide Scaled;
    CoversLeaf(h, xs, l, i);
    ScaledIsProduct(i, l);
  }

  lemma {:induction false} CoversLeaf<T>(h: (T, T) -> T, xs: seq<T>, l: nat, i: nat)
    requires |xs| > 0
    ensures i < |Levels(h, xs, l)| <==> Scaled(i, l) < |xs|
  {
    hide Level;
    if l > 0 {
      CoversLeaf(h, xs, l - 1, 2 * i);
      ScaledDouble(i, l - 1);
    }
  }

  lemma {:induction false} LevelsShift<T>(h: (T, T) -> T, xs: seq<T>, l: nat)
    requires |xs| > 0
    ensures Levels(h, Level(h, xs), l) == Levels(h, xs, l + 1)
  {
    if l > 0 {
      LevelsShift(h, xs, l - 1);
    }
  }

  lemma LevelsStart<T>(h: (T, T) -> T, xs: seq<T>)
    requires |xs| > 0
    ensures Levels(h, xs, 0) == xs
  {}

  lemma {:induction false} RootIsTopLevel<T>(h: (T, T) -> T, xs: seq<T>)
    requires |xs| > 0
    ensures Levels(h, xs, Height(|xs|)) == [Root(h, xs)]
    decreases |xs|
  {
    hide Level, Levels;
    if |xs| == 1 {
      LevelsStart(h, xs);
    } else {
      RootIsTopLevel(h, Level(h, xs));
      LevelsShift(h, xs, Height((|xs| + 1) / 2));
    }
  }

  /** The same tree from the top: node `i` at height `d` over the leaves, a missing right child being the left one. */
  function Tree<T>(h: (T, T) -> T, xs: seq<T>, d: nat, i: nat): T
    requires Scaled(i, d) < |xs|
    decreases d
  {
    if d == 0 then xs[i]
    else
      ScaledDouble(i, d - 1);
      var left := Tree(h, xs, d - 1, 2 * i);
      h(left, if Scaled(2 * i + 1, d - 1) < |xs| then Tree(h, xs, d - 1, 2 * i + 1) else left)
  }

  lemma TreeStep<T>(h: (T, T) -> T, xs: seq<T>, d: nat, i: nat)
    requires d > 0 && Scaled(i, d) < |xs|
    ensures Scaled(2 * i, d - 1) < |xs|
    ensures Scaled(2 * i + 1, d - 1) < |xs| ==>
      Tree(h, xs, d, i) == h(Tree(h, xs, d - 1, 2 * i), Tree(h, xs, d - 1, 2 * i + 1))
    ensures Scaled(2 * i + 1, d - 1) >= |xs| ==>
      Tree(h, xs, d, i) == h(Tree(h, xs, d - 1, 2 * i), Tree(h, xs, d - 1, 2 * i))
  {
    ScaledDouble(i, d - 1);
  }

  lemma LevelsStep<T>(h: (T, T) -> T, xs: seq<T>, d: nat)
    requires |xs| > 0
    ensures Levels(h, xs, 0) == xs
    ensures d > 0 ==> Levels(h, xs, d) == Level(h, Levels(h, xs, d - 1))
  {}

  lemma TreeLeaf<T>(h: (T, T) -> T, xs: seq<T>, i: nat)
    requires Scaled(i, 0) < |xs|
    ensures i < |xs| && Tree(h, xs, 0, i) == xs[i]
  {}

  lemma {:induction false} TreeIsLevel<T>(h: (T, T) -> T, xs: seq<T>, d: nat, i: nat)
    requires Scaled(i, d) < |xs|
    ensures i < |Levels(h, xs, d)| && Levels(h, xs, d)[i] == Tree(h, xs, d, i)
    decreases d
  {
    hide Level, Levels, Tree, Scaled;
    CoversLeaf(h, xs, d, i);
    LevelsStep(h, xs, d);
    if d == 0 {
      TreeLeaf(h, xs, i);
    } else {
      TreeStep(h, xs, d, i);
      TreeIsLevel(h, xs, d - 1, 2 * i);
      CoversLeaf(h, xs, d - 1, 2 * i + 1);
      if Scaled(2 * i + 1, d - 1) < |xs| {
        TreeIsLevel(h, xs, d - 1, 2 * i + 1);
        LevelPair(h, Levels(h, xs, d - 1), i);
      } else {
        LevelLast(h, Levels(h, xs, d - 1), i);
      }
    }
  }

  /** The root computed level by level is the top of the recursive tree. */
  lemma RootIsTree<T>(h: (T, T) -> T, xs: seq<T>)
    requires |xs| > 0
    ensures Root(h, xs) == Tree(h, xs, Height(|xs|), 0)
  {
    hide Level, Levels, Tree, Root, Height;
    RootIsTopLevel(h, xs);
    TreeIsLevel(h, xs, Height(|xs|), 0);
  }

  // The reduction in place.

  /** One round: the nodes `ip[..itx]` are reduced into `op`, which may be the same array. The scratch pair of an odd
      level lies past the live nodes, at `ext` and `ext + 1`. */
  method ReduceLevel<T>(h: (T, T) -> T, ip: array<T>, op: array<T>, itx: nat, ext: nat)
    requires 1 < itx <= ip.Length && (itx + 1) / 2 <= ext && op.Length == ext + 2
    requires ip == op ==> itx <= ext
    modifies op
    ensures op[..(itx + 1) / 2] == Level(h, old(ip[..itx]))
    ensures ip != op ==> ip[..] == old(ip[..])
  {
    hide Level;
    ghost var xs := ip[..itx];
    var odd := itx % 2;
    var otx := (itx + 1) / 2;
    if odd == 1 {
      op[ext] := ip[itx - 1];
      op[ext + 1] := ip[itx - 1];
    }
    var i := 0;
    while i < otx - odd
      invariant 0 <= i <= otx - odd
      invariant odd == 1 ==> op[ext] == op[ext + 1] == xs[itx - 1]
      invariant forall k :: 0 <= k < i ==> op[k] == Level(h, xs)[k]
      invariant ip != op ==> ip[..] == old(ip[..])
      invariant ip == op ==> forall k :: i <= k < itx ==> ip[k] == xs[k]
    {
      LevelAt(h, xs, i);
      op[i] := h(ip[2 * i], ip[2 * i + 1]);
      i := i + 1;
    }
    if odd == 1 {
      LevelAt(h, xs, otx - 1);
      op[otx - 1] := h(op[ext], op[ext + 1]);
    }
    assert op[..otx] == Level(h, xs);
  }

  datatype Code = Success | Error

  /** `bc_merkle_root`: `op` is the region of (n + 1) / 2 + 2 nodes consumed from the caller's buffer. */
  method MerkleRoot<T>(h: (T, T) -> T, zero: T, txids: array<T>, op: array<T>)
    returns (ec: Code, ghost rounds: nat)
    requires op != txids && op.Length == (txids.Length + 1) / 2 + 2
    modifies op
    ensures txids.Length == 0 ==> ec == Error && op[..] == old(op[..])
    ensures txids.Length > 0 ==>
      ec == Success && op[0] == Root(h, txids[..]) && rounds == Height(txids.Length)
  {
    hide Level, Root;
    rounds := 0;
    var itx := txids.Length;
    var otx := (itx + 1) / 2;
    if itx < 1 {
      return Error, 0;
    }
    var ip := txids;
    forall i | 0 <= i < otx {
      op[i] := zero;
    }
    var ext := otx;
    ghost var xs := txids[..];
    assert txids[..itx] == xs;
    while itx > 1
      invariant 1 <= itx <= ip.Length && (ip == txids || (ip == op && itx <= ext)) && (itx + 1) / 2 <= ext
      invariant rounds == 0 ==> ip == txids
      invariant ip[..itx] == Levels(h, xs, rounds)
      invariant rounds + Height(itx) == Height(|xs|)
      invariant txids[..] == xs
      decreases itx
    {
      otx := (itx + 1) / 2;
      ReduceLevel(h, ip, op, itx, ext);
      ip := op;
      itx := otx;
      rounds := rounds + 1;
    }
    RootIsTopLevel(h, xs);
    assert ip[..itx][0] == Root(h, xs);
    op[0] := ip[0];
    ec := Success;
  }

  // What the root says about its leaves.

  lemma LevelConcat<T>(h: (T, T) -> T, xs: seq<T>, ys: seq<T>)
    requires |xs| % 2 == 0
    ensures Level(h, xs + ys) == Level(h, xs) + Level(h, ys)
  {
    hide Level;
    var zs, l, r := xs + ys, Level(h, xs), Level(h, ys);
    forall i | 0 <= i < |Level(h, zs)|
      ensures Level(h, zs)[i] == (l + r)[i]
    {
      LevelAt(h, zs, i);
      if i < |l| {
        LevelAt(h, xs, i);
      } else {
        var k := i - |l|;
        LevelAt(h, ys, k);
        assert zs[2 * i] == ys[2 * k];
      }
    }
  }

  lemma OddLevelPairsLast<T>(h: (T, T) -> T, xs: seq<T>)
    requires |xs| % 2 == 1
    ensures Level(h, xs + [xs[|xs| - 1]]) == Level(h, xs)
  {
    hide Level;
    var ys := xs + [xs[|xs| - 1]];
    forall i | 0 <= i < |Level(h, xs)|
      ensures Level(h, ys)[i] == Level(h, xs)[i]
    {
      LevelAt(h, xs, i);
      LevelAt(h, ys, i);
    }
  }

  lemma RootStep<T>(h: (T, T) -> T, xs: seq<T>)
    requires |xs| > 1
    ensures Root(h, xs) == Root(h, Level(h, xs))
  {}

  lemma HalvesMatch<T>(h: (T, T) -> T, head: seq<T>, tail: seq<T>)
    requires |head| % 2 == 0 && |tail| % 2 == 0
    ensures var ys := Level(h, head + tail);
            && ys == Level(h, head) + Level(h, tail)
            && ys[|ys| - |tail| / 2..] == Level(h, tail)
            && Level(h, head + tail + tail) == ys + Level(h, tail)
  {
    hide Level;
    LevelConcat(h, head, tail);
    LevelConcat(h, head + tail, tail);
  }

  lemma {:induction false} OneIsLess(j: nat)
    ensures Pow2(j) >= 1
  {
    if j > 0 {
      OneIsLess(j - 1);
    }
  }

  lemma EvenBlocks(k: nat, j: nat)
    ensures j == 0 ==> Pow2(j) == 1 && Scaled(k, j) == k
    ensures j > 0 ==> Pow2(j) == 2 * Pow2(j - 1) && Scaled(k, j) == 2 * Scaled(k, j - 1) && Scaled(k, j) % 2 == 0
  {}

  lemma TailIsProper(k: nat, j: nat)
    requires k > 1
    ensures 0 < 2 * Pow2(j) <= Scaled(k, j)
  {
    ScaledMonotone(2, k, j);
    ScaledDouble(1, j);
    OneIsLess(j);
  }

  /** Duplication law: over k * 2^j leaves, k odd and more than one, appending a copy of the last 2^j leaves leaves
      the root unchanged. */
  lemma {:induction false} DuplicateTail<T>(h: (T, T) -> T, xs: seq<T>, k: nat, j: nat)
    requires k % 2 == 1 && k > 1 && |xs| == Scaled(k, j)
    ensures Pow2(j) < |xs| && Root(h, xs + xs[|xs| - Pow2(j)..]) == Root(h, xs)
    decreases j
  {
    hide Level, Root, Scaled, Pow2;
    TailIsProper(k, j);
    EvenBlocks(k, j);
    var head, tail := xs[..|xs| - Pow2(j)], xs[|xs| - Pow2(j)..];
    assert xs == head + tail;
    RootStep(h, xs);
    RootStep(h, xs + tail);
    if j == 0 {
      OddLevelPairsLast(h, xs);
      assert tail == [xs[|xs| - 1]];
    } else {
      HalvesMatch(h, head, tail);
      DuplicateTail(h, Level(h, xs), k, j - 1);
    }
  }

  /** At a power of two the same step is visible: the copy becomes a second subtree. */
  lemma {:induction false} DuplicateAll<T>(h: (T, T) -> T, xs: seq<T>, j: nat)
    requires |xs| == Pow2(j)
    ensures |xs| > 0 && Root(h, xs + xs) == h(Root(h, xs), Root(h, xs))
    decreases j
  {
    hide Level;
    OneIsLess(j);
    if j == 0 {
      LevelAt(h, xs + xs, 0);
      assert Level(h, xs + xs) == [h(xs[0], xs[0])];
    } else {
      LevelConcat(h, xs, xs);
      DuplicateAll(h, Level(h, xs), j - 1);
    }
  }

  /** The two nodes hashed into node `k` of the next level. */
  function PairAt<T>(xs: seq<T>, k: nat): (T, T)
    requires k < (|xs| + 1) / 2
  {
    (xs[2 * k], xs[if 2 * k + 1 < |xs| then 2 * k + 1 else 2 * k])
  }

  ghost predicate PairOf<T>(xs: seq<T>, p: (T, T)) {
    exists k: nat :: k < (|xs| + 1) / 2 && p == PairAt(xs, k)
  }

  /** The computation of the root of `xs` hashes the pair `p`. */
  ghost predicate Feeds<T>(h: (T, T) -> T, xs: seq<T>, p: (T, T))
    decreases |xs|
  {
    |xs| > 1 && (PairOf(xs, p) || Feeds(h, Level(h, xs), p))
  }

  /** The two computations meet in a collision of the pair hash. */
  ghost predicate Collide<T(!new)>(h: (T, T) -> T, xs: seq<T>, ys: seq<T>) {
    exists p, q :: Feeds(h, xs, p) && Feeds(h, ys, q) && p != q && h(p.0, p.1) == h(q.0, q.1)
  }

  lemma LevelBinds<T(!new)>(h: (T, T) -> T, xs: seq<T>, ys: seq<T>)
    requires 1 < |xs| == |ys| && Level(h, xs) == Level(h, ys)
    ensures xs == ys || Collide(h, xs, ys)
  {
    hide Level;
    if xs != ys {
      var i :| 0 <= i < |xs| && xs[i] != ys[i];
      var k := i / 2;
      LevelAt(h, xs, k);
      LevelAt(h, ys, k);
      var p, q := PairAt(xs, k), PairAt(ys, k);
      assert Feeds(h, xs, p) && Feeds(h, ys, q) && p != q;
    }
  }

  /** Binding: lists of one length with one root are the same list, unless computing the two roots hashed two
      different pairs to the same node. */
  lemma {:induction false} RootBinds<T(!new)>(h: (T, T) -> T, xs: seq<T>, ys: seq<T>)
    requires 0 < |xs| == |ys| && Root(h, xs) == Root(h, ys)
    ensures xs == ys || Collide(h, xs, ys)
    decreases |xs|
  {
    hide Level;
    if |xs| == 1 {
      assert xs == [xs[0]] && ys == [ys[0]];
    } else {
      RootBinds(h, Level(h, xs), Level(h, ys));
      if Level(h, xs) == Level(h, ys) {
        LevelBinds(h, xs, ys);
      } else {
        var p, q :| Feeds(h, Level(h, xs), p) && Feeds(h, Level(h, ys), q) && p != q && h(p.0, p.1) == h(q.0, q.1);
        assert Feeds(h, xs, p) && Feeds(h, ys, q);
      }
    }
  }

  // Which lists have one root.

  lemma {:induction false} ScaledAdd(i: nat, k: nat, l: nat)
    ensures Scaled(i + k, l) == Scaled(i, l) + Scaled(k, l)
  {
    if l > 0 {
      ScaledAdd(i, k, l - 1);
    }
  }

  /** `k` blocks of 2^j, with one more when `k` is odd, are half as many blocks of twice the size. */
  lemma HalfAsMany(k: nat, j: nat)
    ensures k % 2 == 1 ==> Scaled(k, j) + Pow2(j) == Scaled((k + 1) / 2, j + 1)
    ensures k % 2 == 0 ==> Scaled(k, j) == Scaled(k / 2, j + 1)
    ensures k > 0 ==> Pow2(j) <= Scaled(k, j)
  {
    var half := (k + 1) / 2;
    assert 2 * half == if k % 2 == 1 then k + 1 else k;
    ScaledDouble(half, j);
    ScaledAdd(k, 1, j);
    if k > 0 {
      ScaledMonotone(1, k, j);
    }
  }

  /** `xs`, in `k` blocks of 2^j leaves, completed to a power of two by repeating its last block wherever the number of
      blocks is odd. */
  function Expand<T>(xs: seq<T>, k: nat, j: nat): seq<T>
    requires k > 0 && |xs| == Scaled(k, j)
    decreases k
  {
    HalfAsMany(k, j);
    if k == 1 then xs
    else if k % 2 == 1 then Expand(xs + xs[|xs| - Pow2(j)..], (k + 1) / 2, j + 1)
    else Expand(xs, k / 2, j + 1)
  }

  function Full<T>(xs: seq<T>): seq<T>
    requires |xs| > 0
  {
    Expand(xs, |xs|, 0)
  }

  lemma {:induction false} ExpandLength<T>(xs: seq<T>, k: nat, j: nat)
    requires k > 0 && |xs| == Scaled(k, j)
    ensures |Expand(xs, k, j)| == Pow2(j + Height(k))
    decreases k
  {
    hide Scaled;
    HalfAsMany(k, j);
    if k == 1 {
    } else if k % 2 == 1 {
      ExpandLength(xs + xs[|xs| - Pow2(j)..], (k + 1) / 2, j + 1);
    } else {
      ExpandLength(xs, k / 2, j + 1);
    }
  }

  lemma PairsOfDouble<T>(xs: seq<T>, tail: seq<T>, p: (T, T))
    requires |xs| % 2 == 0 && |tail| % 2 == 0 && 0 < |tail| <= |xs| && tail == xs[|xs| - |tail|..]
    ensures PairOf(xs + tail, p) <==> PairOf(xs, p)
  {
    var ys, d := xs + tail, |tail| / 2;
    if PairOf(ys, p) {
      var k: nat :| k < (|ys| + 1) / 2 && p == PairAt(ys, k);
      var i := if k < |xs| / 2 then k else k - d;
      assert PairAt(ys, k) == PairAt(xs, i);
    }
    if PairOf(xs, p) {
      var k: nat :| k < (|xs| + 1) / 2 && p == PairAt(xs, k);
      assert PairAt(ys, k) == PairAt(xs, k);
    }
  }

  lemma PairsOfOdd<T>(xs: seq<T>, p: (T, T))
    requires |xs| % 2 == 1
    ensures PairOf(xs + [xs[|xs| - 1]], p) <==> PairOf(xs, p)
  {
    var ys := xs + [xs[|xs| - 1]];
    forall k: nat | k < (|xs| + 1) / 2
      ensures PairAt(ys, k) == PairAt(xs, k)
    {}
    if PairOf(xs, p) {
      var k: nat :| k < (|xs| + 1) / 2 && p == PairAt(xs, k);
      assert PairAt(ys, k) == p;
    }
  }

  lemma FeedsStep<T>(h: (T, T) -> T, xs: seq<T>, p: (T, T))
    requires |xs| > 1
    ensures Feeds(h, xs, p) <==> PairOf(xs, p) || Feeds(h, Level(h, xs), p)
  {}

  /** One level up, repeating an even tail of an even list is repeating half as long a tail. */
  lemma EvenTailFeeds<T>(h: (T, T) -> T, xs: seq<T>, d: nat, p: (T, T))
    requires |xs| % 2 == 0 && 0 < 2 * d <= |xs|
    ensures var ys := Level(h, xs);
            && |ys| == |xs| / 2
            && (Feeds(h, xs, p) <==> PairOf(xs, p) || Feeds(h, ys, p))
            && (Feeds(h, xs + xs[|xs| - 2 * d..], p) <==> PairOf(xs, p) || Feeds(h, ys + ys[|ys| - d..], p))
  {
    hide Level, Feeds, PairOf;
    var head, tail := xs[..|xs| - 2 * d], xs[|xs| - 2 * d..];
    assert xs == head + tail;
    FeedsStep(h, xs, p);
    FeedsStep(h, xs + tail, p);
    HalvesMatch(h, head, tail);
    assert Level(h, xs + tail) == Level(h, xs) + Level(h, xs)[|Level(h, xs)| - d..];
    PairsOfDouble(xs, tail, p);
  }

  /** The copy of the tail makes the computation hash no new pair. */
  lemma {:induction false} DuplicateTailFeeds<T>(h: (T, T) -> T, xs: seq<T>, k: nat, j: nat, p: (T, T))
    requires k % 2 == 1 && k > 1 && |xs| == Scaled(k, j)
    ensures Pow2(j) < |xs| && (Feeds(h, xs + xs[|xs| - Pow2(j)..], p) <==> Feeds(h, xs, p))
    decreases j
  {
    hide Level, Feeds, PairOf, Scaled, Pow2;
    TailIsProper(k, j);
    EvenBlocks(k, j);
    if j == 0 {
      var last := xs[|xs| - 1];
      assert xs[|xs| - Pow2(j)..] == [last];
      OddLevelPairsLast(h, xs);
      PairsOfOdd(xs, p);
      FeedsStep(h, xs, p);
      FeedsStep(h, xs + [last], p);
      assert xs + xs[|xs| - Pow2(j)..] == xs + [last];
    } else {
      EvenTailFeeds(h, xs, Pow2(j - 1), p);
      DuplicateTailFeeds(h, Level(h, xs), k, j - 1, p);
    }
  }

  /** Completing a list changes neither its root nor the pairs hashed on the way to it. */
  lemma {:induction false} ExpandKeeps<T(!new)>(h: (T, T) -> T, xs: seq<T>, k: nat, j: nat)
    requires k > 0 && |xs| == Scaled(k, j)
    ensures |xs| > 0 && |Expand(xs, k, j)| > 0 && Root(h, Expand(xs, k, j)) == Root(h, xs)
    ensures forall p :: Feeds(h, Expand(xs, k, j), p) <==> Feeds(h, xs, p)
    decreases k
  {
    hide Root, Feeds, Scaled, Pow2;
    HalfAsMany(k, j);
    OneIsLess(j);
    if k == 1 {
    } else if k % 2 == 1 {
      var ys := xs + xs[|xs| - Pow2(j)..];
      DuplicateTail(h, xs, k, j);
      forall p
        ensures Feeds(h, ys, p) <==> Feeds(h, xs, p)
      {
        DuplicateTailFeeds(h, xs, k, j, p);
      }
      ExpandKeeps(h, ys, (k + 1) / 2, j + 1);
    } else {
      ExpandKeeps(h, xs, k / 2, j + 1);
    }
  }

  /** Exactly which lists of one height share a root: those whose completions agree. The one way holds for any pair
      hash, the other unless computing the two roots hashed two different pairs to the same node. */
  lemma RootsAgreeExactly<T(!new)>(h: (T, T) -> T, xs: seq<T>, ys: seq<T>)
    requires |xs| > 0 && |ys| > 0 && Height(|xs|) == Height(|ys|)
    ensures Full(xs) == Full(ys) ==> Root(h, xs) == Root(h, ys)
    ensures Root(h, xs) == Root(h, ys) ==> Full(xs) == Full(ys) || Collide(h, xs, ys)
  {
    hide Root, Feeds, Expand;
    ExpandKeeps(h, xs, |xs|, 0);
    ExpandKeeps(h, ys, |ys|, 0);
    ExpandLength(xs, |xs|, 0);
    ExpandLength(ys, |ys|, 0);
    if Root(h, xs) == Root(h, ys) {
      RootBinds(h, Full(xs), Full(ys));
      if Collide(h, Full(xs), Full(ys)) {
        var p, q :| Feeds(h, Full(xs), p) && Feeds(h, Full(ys), q) && p != q && h(p.0, p.1) == h(q.0, q.1);
        assert Feeds(h, xs, p) && Feeds(h, ys, q);
      }
    }
  }

  // Lists of different heights.

  /** A leaf of `ys` is a node hashed on the way to the root of `xs`. */
  ghost predicate LeafIsNode<T(!new)>(h: (T, T) -> T, xs: seq<T>, ys: seq<T>) {
    exists i, p :: 0 <= i < |ys| && Feeds(h, xs, p) && ys[i] == h(p.0, p.1)
  }

  lemma {:induction false} RootIsNode<T(!new)>(h: (T, T) -> T, xs: seq<T>) returns (p: (T, T))
    requires |xs| > 1
    ensures Feeds(h, xs, p) && Root(h, xs) == h(p.0, p.1)
    decreases |xs|
  {
    hide Level;
    if |xs| == 2 {
      p := PairAt(xs, 0);
      LevelAt(h, xs, 0);
      assert PairOf(xs, p);
    } else {
      p := RootIsNode(h, Level(h, xs));
    }
  }

  /** Above the leaves both members of a hashed pair are hashes themselves. */
  lemma {:induction false} InnerIsHash<T(!new)>(h: (T, T) -> T, xs: seq<T>, p: (T, T)) returns (q: (T, T))
    requires |xs| > 1 && Feeds(h, Level(h, xs), p)
    ensures Feeds(h, xs, q) && p.0 == h(q.0, q.1)
    decreases |xs|
  {
    hide Level;
    var ys := Level(h, xs);
    if PairOf(ys, p) {
      var k: nat :| k < (|ys| + 1) / 2 && p == PairAt(ys, k);
      q := PairAt(xs, 2 * k);
      LevelAt(h, xs, 2 * k);
      assert PairOf(xs, q);
    } else {
      q := InnerIsHash(h, ys, p);
    }
  }

  /** A root also fixes the height of its list, unless a leaf of the lower list is an inner node of the higher one, or
      the computations collide. */
  lemma {:induction false} RootFixesHeight<T(!new)>(h: (T, T) -> T, xs: seq<T>, ys: seq<T>)
    requires |xs| > 0 && |ys| > 0 && Height(|xs|) > Height(|ys|) && Root(h, xs) == Root(h, ys)
    ensures LeafIsNode(h, xs, ys) || Collide(h, xs, ys)
    decreases |ys|
  {
    hide Level;
    if |ys| == 1 {
      var p := RootIsNode(h, xs);
      assert ys[0] == h(p.0, p.1);
    } else {
      var us, vs := Level(h, xs), Level(h, ys);
      RootFixesHeight(h, us, vs);
      if LeafIsNode(h, us, vs) {
        var i, p :| 0 <= i < |vs| && Feeds(h, us, p) && vs[i] == h(p.0, p.1);
        LevelAt(h, ys, i);
        var q := PairAt(ys, i);
        assert PairOf(ys, q) && Feeds(h, ys, q) && Feeds(h, xs, p);
        if p == q {
          var r := InnerIsHash(h, xs, p);
          assert ys[2 * i] == h(r.0, r.1);
        }
      } else {
        var p, q :| Feeds(h, us, p) && Feeds(h, vs, q) && p != q && h(p.0, p.1) == h(q.0, q.1);
        assert Feeds(h, xs, p) && Feeds(h, ys, q);
      }
    }
  }

  // Which numbers of leaves a root tells apart.

  function Copies<T>(c: T, n: nat): (xs: seq<T>)
    ensures |xs| == n
  {
    seq(n, _ => c)
  }

  /** `c` paired with itself, and the result with itself, `k` times over. */
  function Doubled<T>(h: (T, T) -> T, c: T, k: nat): T
    decreases k
  {
    if k == 0 then c else Doubled(h, h(c, c), k - 1)
  }

  lemma {:induction false} DoubledAdd<T>(h: (T, T) -> T, c: T, j: nat, k: nat)
    ensures Doubled(h, Doubled(h, c, j), k) == Doubled(h, c, j + k)
    decreases j
  {
    if j > 0 {
      DoubledAdd(h, h(c, c), j - 1, k);
    }
  }

  /** The root of copies of one leaf depends on their number only through its height. */
  lemma {:induction false} CopiesRoot<T>(h: (T, T) -> T, c: T, n: nat)
    requires n > 0
    ensures Root(h, Copies(c, n)) == Doubled(h, c, Height(n))
    decreases n
  {
    if n > 1 {
      assert Level(h, Copies(c, n)) == Copies(h(c, c), (n + 1) / 2);
      CopiesRoot(h, h(c, c), (n + 1) / 2);
    }
  }

  lemma LowerSharesRoot<T>(h: (T, T) -> T, c: T, n: nat, m: nat) returns (xs: seq<T>, ys: seq<T>)
    requires n > 0 && m > 0 && Height(n) >= Height(m)
    ensures |xs| == n && |ys| == m && Root(h, xs) == Root(h, ys)
  {
    hide Root, Height, Doubled;
    var j, k := Height(n), Height(m);
    var d := Doubled(h, c, j - k);
    xs, ys := Copies(c, n), Copies(d, m);
    DoubledAdd(h, c, j - k, k);
    CopiesRoot(h, c, n);
    CopiesRoot(h, d, m);
  }

  /** Any two numbers of leaves share a root, whatever the pair hash. */
  lemma LengthsShareRoot<T>(h: (T, T) -> T, c: T, n: nat, m: nat) returns (xs: seq<T>, ys: seq<T>)
    requires n > 0 && m > 0
    ensures |xs| == n && |ys| == m && Root(h, xs) == Root(h, ys)
  {
    hide Root, Height;
    if Height(n) >= Height(m) {
      xs, ys := LowerSharesRoot(h, c, n, m);
    } else {
      ys, xs := LowerSharesRoot(h, c, m, n);
    }
  }

  ghost predicate Injective<T(!new)>(h: (T, T) -> T) {
    forall a, b, c, d :: h(a, b) == h(c, d) ==> a == c && b == d
  }

  /** Equal roots over `n` and `m` leaves mean equal lists. */
  ghost predicate RootFixes<T(!new)>(h: (T, T) -> T, n: nat, m: nat)
    requires n > 0 && m > 0
  {
    forall xs: seq<T>, ys: seq<T> :: |xs| == n && |ys| == m && Root(h, xs) == Root(h, ys) ==> xs == ys
  }

  /** A root fixes its list exactly among lists of one length, even when no two pairs have one hash. That is an
      idealisation, for no function from pairs of 32-byte nodes to such nodes is injective; the two halves that hold for
      every pair hash are `RootBinds` and `LengthsShareRoot`. */
  lemma RootFixesExactly<T(!new)>(h: (T, T) -> T, c: T, n: nat, m: nat)
    requires Injective(h) && n > 0 && m > 0
    ensures RootFixes(h, n, m) <==> n == m
  {
    hide Root, Feeds;
    var xs, ys := LengthsShareRoot(h, c, n, m);
    if n == m {
      forall us: seq<T>, vs: seq<T> | |us| == n && |vs| == m && Root(h, us) == Root(h, vs)
        ensures us == vs
      {
        RootBinds(h, us, vs);
      }
    } else {
      assert xs != ys;
    }
  }
}
