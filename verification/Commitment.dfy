/** What a block hash commits to: the header hash and the transaction identifiers of bc_utils.c and the root of
    bc_merkle_root.c together. */
module Commitment {
  import opened Bytes
  import opened Fips180
  import opened Sha256Engine
  import opened Stream
  import opened Wire
  import BlockHeader
  import Dca
  import Merkle
  import Writers

  type Node = s: seq<byte> | |s| == 32 witness Zeros(32)

  /** `bc_hash32_pair_hash`. */
  function PairHash(left: Node, right: Node): Node {
    DoubleSha256(left + right)
  }

  function TxId(tx: Tx): Node {
    DoubleSha256(HashedBytes(tx))
  }

  method HashPair(left: Node, right: Node, hash: array<byte>)
    requires hash.Length == 32
    modifies hash
    ensures hash[..] == Sha256(Sha256(left + right)) == PairHash(left, right)
  {
    hide Sha256;
    SliceOfPointer(left + right);
    var _ := DoubleDigest(Pointer(left + right), 64, hash);
  }

  /** `bc_block_header_hash32`. */
  method HashHeader(header: BlockHeader.Header, hash: array<byte>)
    requires header.Wf() && hash.Length == 32
    modifies hash
    ensures hash[..] == Sha256(Sha256(header.Serialize())) == header.Hash()
  {
    hide Sha256, BlockHeader.Header.Serialize;
    SliceOfPointer(header.Serialize());
    var _ := DoubleDigest(Pointer(header.Serialize()), 80, hash);
  }

  /** `bc_tx_txid`. `ok` is false exactly when the allocator refused to let the buffer grow. */
  method HashTx(tx: Tx, hash: array<byte>, memory: Dca.Allocator) returns (ok: bool)
    requires tx.Wf() && Dca.HEADER_SIZE + |TxBytes(tx)| < TWO_64 && hash.Length == 32
    modifies hash, memory
    ensures old(memory.asked) <= memory.asked && (ok <==> memory.Granted(old(memory.asked), memory.asked))
    ensures ok ==> hash[..] == Sha256(Sha256(TxBytes(tx)[..|TxBytes(tx)| % TWO_32])) == TxId(tx)
  {
    hide Sha256, TxBytes;
    var buf := new Dca.Container(Dca.HEADER_SIZE, 1, memory);
    ok := Writers.AppendTxLegacy(buf, tx);
    if ok {
      var data := buf.Contents();
      assert data == TxBytes(tx);
      var len := |data| % TWO_32;
      assert Slice(Pointer(data), 0, len) == data[..len];
      var _ := DoubleDigest(Pointer(data), len, hash);
    }
  }

  function TxIds(txs: seq<Tx>): (ids: seq<Node>)
    ensures |ids| == |txs|
    ensures forall i :: 0 <= i < |txs| ==> ids[i] == TxId(txs[i])
  {
    seq(|txs|, i requires 0 <= i < |txs| => TxId(txs[i]))
  }

  predicate AllWf(txs: seq<Tx>) {
    forall i :: 0 <= i < |txs| ==> txs[i].Wf()
  }

  predicate AllShort(txs: seq<Tx>) {
    forall i :: 0 <= i < |txs| ==> Short(txs[i])
  }

  predicate SameHashed(s: seq<Tx>, t: seq<Tx>) {
    |s| == |t| && forall i :: 0 <= i < |s| ==> HashedBytes(s[i]) == HashedBytes(t[i])
  }

  datatype Block = Block(header: BlockHeader.Header, txs: seq<Tx>) {
    predicate Wf() {
      header.Wf() && |txs| > 0 && AllWf(txs) && header.merkleRoot == Merkle.Root(PairHash, TxIds(txs))
    }

    /** The byte strings that are double-hashed in identifying the block. */
    ghost predicate Hashes(m: seq<byte>)
      requires header.Wf()
    {
      || m == header.Serialize()
      || (exists i :: 0 <= i < |txs| && m == HashedBytes(txs[i]))
      || (exists p: (Node, Node) :: Merkle.Feeds(PairHash, TxIds(txs), p) && m == p.0 + p.1)
    }
  }

  /** Identifying the two hashes two different byte strings to one double SHA-256. */
  ghost predicate Collide(a: Block, b: Block)
    requires a.header.Wf() && b.header.Wf()
  {
    exists x, y :: a.Hashes(x) && b.Hashes(y) && x != y && DoubleSha256(x) == DoubleSha256(y)
  }

  // From a shared hash to shared bytes.

  lemma HeadersAgree(a: Block, b: Block)
    requires a.header.Wf() && b.header.Wf() && a.header.Hash() == b.header.Hash()
    ensures a.header == b.header || Collide(a, b)
  {
    hide DoubleSha256, TxIds, HashedBytes, Merkle.Feeds, BlockHeader.Header.Wf;
    var x, y := a.header.Serialize(), b.header.Serialize();
    if x == y {
      BlockHeader.SerializeInjective(a.header, b.header);
    } else {
      assert a.Hashes(x) && b.Hashes(y);
    }
  }

  lemma ConcatBinds(p: (Node, Node), q: (Node, Node))
    requires p.0 + p.1 == q.0 + q.1
    ensures p == q
  {
    var x, y := p.0 + p.1, q.0 + q.1;
    assert x[..32] == p.0 && x[32..] == p.1 && y[..32] == q.0 && y[32..] == q.1;
  }

  lemma PairIsHashed(a: Block, p: (Node, Node))
    requires a.header.Wf() && Merkle.Feeds(PairHash, TxIds(a.txs), p)
    ensures a.Hashes(p.0 + p.1)
  {}

  lemma PairsCollide(a: Block, b: Block)
    requires a.header.Wf() && b.header.Wf() && Merkle.Collide(PairHash, TxIds(a.txs), TxIds(b.txs))
    ensures Collide(a, b)
  {
    hide DoubleSha256, Block.Hashes, TxIds, Merkle.Feeds, BlockHeader.Header.Wf;
    var p: (Node, Node), q: (Node, Node) :|
      Merkle.Feeds(PairHash, TxIds(a.txs), p) && Merkle.Feeds(PairHash, TxIds(b.txs), q)
      && p != q && PairHash(p.0, p.1) == PairHash(q.0, q.1);
    PairIsHashed(a, p);
    PairIsHashed(b, q);
    if p.0 + p.1 == q.0 + q.1 {
      ConcatBinds(p, q);
    }
  }

  lemma TxIsHashed(a: Block, i: nat)
    requires a.header.Wf() && i < |a.txs|
    ensures a.Hashes(HashedBytes(a.txs[i])) && TxIds(a.txs)[i] == DoubleSha256(HashedBytes(a.txs[i]))
  {
    hide DoubleSha256, HashedBytes;
  }

  lemma IdsAgree(a: Block, b: Block)
    requires a.header.Wf() && b.header.Wf() && TxIds(a.txs) == TxIds(b.txs)
    ensures SameHashed(a.txs, b.txs) || Collide(a, b)
  {
    hide DoubleSha256, Block.Hashes, TxIds, HashedBytes, BlockHeader.Header.Wf;
    assert |TxIds(a.txs)| == |TxIds(b.txs)|;
    if !SameHashed(a.txs, b.txs) {
      var i :| 0 <= i < |a.txs| && HashedBytes(a.txs[i]) != HashedBytes(b.txs[i]);
      TxIsHashed(a, i);
      TxIsHashed(b, i);
    }
  }

  lemma SameBytesOrCollide(a: Block, b: Block)
    requires a.Wf() && b.Wf() && |a.txs| == |b.txs| && a.header.Hash() == b.header.Hash()
    ensures (a.header == b.header && SameHashed(a.txs, b.txs)) || Collide(a, b)
  {
    hide DoubleSha256, Block.Hashes, TxIds, SameHashed, Merkle.Root, Merkle.Feeds, Collide;
    HeadersAgree(a, b);
    if a.header == b.header {
      Merkle.RootBinds(PairHash, TxIds(a.txs), TxIds(b.txs));
      if TxIds(a.txs) == TxIds(b.txs) {
        IdsAgree(a, b);
      } else {
        PairsCollide(a, b);
      }
    }
  }

  lemma SameHashedIds(s: seq<Tx>, t: seq<Tx>)
    requires SameHashed(s, t)
    ensures TxIds(s) == TxIds(t)
  {
    hide DoubleSha256, HashedBytes;
    forall i | 0 <= i < |s|
      ensures TxIds(s)[i] == TxIds(t)[i]
    {
      assert HashedBytes(s[i]) == HashedBytes(t[i]);
    }
  }

  lemma SameHashes(a: Block, b: Block)
    requires a.header.Wf() && a.header == b.header && SameHashed(a.txs, b.txs)
    ensures forall x :: a.Hashes(x) <==> b.Hashes(x)
    ensures Collide(a, b) <==> Collide(a, a)
  {
    hide DoubleSha256, TxIds, HashedBytes, Merkle.Feeds, BlockHeader.Header.Wf;
    SameHashedIds(a.txs, b.txs);
    forall x
      ensures a.Hashes(x) <==> b.Hashes(x)
    {
      if i :| 0 <= i < |a.txs| && x == HashedBytes(a.txs[i]) {
        assert x == HashedBytes(b.txs[i]);
      }
      if i :| 0 <= i < |b.txs| && x == HashedBytes(b.txs[i]) {
        assert x == HashedBytes(a.txs[i]);
      }
    }
  }

  // What the hash says when the number of transactions is known.

  /** Blocks with one hash and one number of transactions are the same block, when the serializations of one of them are
      shorter than 2^32 bytes, unless identifying the two collides. */
  lemma BlockHashBinds(a: Block, b: Block)
    requires a.Wf() && b.Wf() && |a.txs| == |b.txs| && a.header.Hash() == b.header.Hash() && AllShort(a.txs)
    ensures a == b || Collide(a, b)
  {
    hide DoubleSha256, Block.Hashes, TxIds, HashedBytes, Merkle.Root, Collide, Short, Tx.Wf;
    SameBytesOrCollide(a, b);
    if SameHashed(a.txs, b.txs) {
      forall i | 0 <= i < |a.txs|
        ensures a.txs[i] == b.txs[i]
      {
        HashedBytesBind(a.txs[i], b.txs[i]);
      }
    }
  }

  /** The hash and the number of transactions determine the block, up to collisions. */
  ghost predicate Binds(a: Block)
    requires a.Wf()
  {
    forall b: Block ::
      b.Wf() && |b.txs| == |a.txs| && b.header.Hash() == a.header.Hash() ==> b == a || Collide(a, b)
  }

  /** A block with a transaction of 2^32 bytes or more has a twin: another lock time, every hashed byte the same. */
  lemma Twin(a: Block) returns (b: Block)
    requires a.Wf() && !AllShort(a.txs)
    ensures b.Wf() && b != a && b.header == a.header && |b.txs| == |a.txs| && SameHashed(a.txs, b.txs)
  {
    hide DoubleSha256, TxIds, HashedBytes, Merkle.Root, Short, Tx.Wf, Relocked;
    var i :| 0 <= i < |a.txs| && !Short(a.txs[i]);
    LockTimeUnhashed(a.txs[i]);
    b := Block(a.header, a.txs[i := Relocked(a.txs[i])]);
    SameHashedIds(a.txs, b.txs);
    assert b.txs[i] != a.txs[i];
  }

  /** Exactly which blocks their hash and number of transactions determine: those whose transactions all serialize to
      less than 2^32 bytes - and those that collide with themselves, for which nothing is claimed. */
  lemma BindsExactly(a: Block)
    requires a.Wf()
    ensures Binds(a) <==> AllShort(a.txs) || Collide(a, a)
  {
    hide DoubleSha256, AllWf, TxIds, HashedBytes, Collide, AllShort, SameHashed, Merkle.Root;
    if !AllShort(a.txs) {
      var b := Twin(a);
      SameHashes(a, b);
      assert b.Wf();
    }
    if AllShort(a.txs) || Collide(a, a) {
      forall b: Block | b.Wf() && |b.txs| == |a.txs| && b.header.Hash() == a.header.Hash()
        ensures b == a || Collide(a, b)
      {
        if AllShort(a.txs) {
          BlockHashBinds(a, b);
        } else {
          SameBytesOrCollide(a, b);
          if !Collide(a, b) {
            SameHashes(a, b);
          }
        }
      }
    }
  }

  // What the hash says about the number of transactions.

  /** A transaction of `b` hashes as the very 64 bytes of two nodes that are paired in identifying `a`. */
  ghost predicate SpellsPair(a: Block, b: Block) {
    exists i, p: (Node, Node) ::
      0 <= i < |b.txs| && Merkle.Feeds(PairHash, TxIds(a.txs), p) && HashedBytes(b.txs[i]) == p.0 + p.1
  }

  lemma LeafIsPair(a: Block, b: Block)
    requires a.header.Wf() && b.header.Wf() && Merkle.LeafIsNode(PairHash, TxIds(a.txs), TxIds(b.txs))
    ensures SpellsPair(a, b) || Collide(a, b)
  {
    hide DoubleSha256, Block.Hashes, TxIds, HashedBytes, Merkle.Feeds, BlockHeader.Header.Wf;
    var i: int, p: (Node, Node) :|
      0 <= i < |TxIds(b.txs)| && Merkle.Feeds(PairHash, TxIds(a.txs), p) && TxIds(b.txs)[i] == PairHash(p.0, p.1);
    PairIsHashed(a, p);
    TxIsHashed(b, i);
  }

  lemma CollideSymmetric(a: Block, b: Block)
    requires a.header.Wf() && b.header.Wf() && Collide(b, a)
    ensures Collide(a, b)
  {
    hide DoubleSha256, Block.Hashes;
    var x, y :| b.Hashes(x) && a.Hashes(y) && x != y && DoubleSha256(x) == DoubleSha256(y);
    assert a.Hashes(y) && b.Hashes(x);
  }

  /** Of two trees with one root the lower has a transaction that spells a pair of the higher. */
  lemma LowerSpellsPair(a: Block, b: Block)
    requires a.Wf() && b.Wf() && a.header == b.header && Merkle.Height(|a.txs|) > Merkle.Height(|b.txs|)
    ensures SpellsPair(a, b) || Collide(a, b)
  {
    hide DoubleSha256, TxIds, AllWf, SpellsPair, Collide, Merkle.Root, Merkle.Height, Merkle.Feeds;
    Merkle.RootFixesHeight(PairHash, TxIds(a.txs), TxIds(b.txs));
    if Merkle.Collide(PairHash, TxIds(a.txs), TxIds(b.txs)) {
      PairsCollide(a, b);
    } else {
      LeafIsPair(a, b);
    }
  }

  /** A block hash fixes the header and the height of the tree, unless a transaction of the lower tree spells a pair of
      nodes of the higher, or identifying the two collides. */
  lemma HashFixesHeight(a: Block, b: Block)
    requires a.Wf() && b.Wf() && a.header.Hash() == b.header.Hash()
    ensures Collide(a, b) || a.header == b.header
    ensures Merkle.Height(|a.txs|) > Merkle.Height(|b.txs|) ==> SpellsPair(a, b) || Collide(a, b)
    ensures Merkle.Height(|a.txs|) < Merkle.Height(|b.txs|) ==> SpellsPair(b, a) || Collide(a, b)
  {
    hide DoubleSha256, TxIds, AllWf, SpellsPair, Collide, Merkle.Root, Merkle.Height;
    HeadersAgree(a, b);
    if a.header == b.header {
      if Merkle.Height(|a.txs|) > Merkle.Height(|b.txs|) {
        LowerSpellsPair(a, b);
      } else if Merkle.Height(|a.txs|) < Merkle.Height(|b.txs|) {
        LowerSpellsPair(b, a);
        if Collide(b, a) {
          CollideSymmetric(a, b);
        }
      }
    }
  }

  lemma TxIdsConcat(s: seq<Tx>, t: seq<Tx>)
    ensures TxIds(s + t) == TxIds(s) + TxIds(t)
  {
    hide TxId;
  }

  lemma TxIdsTail(s: seq<Tx>, n: nat)
    requires n <= |s|
    ensures TxIds(s[n..]) == TxIds(s)[n..]
  {
    hide TxId;
  }

  /** Completing a list of transactions completes the list of their identifiers, and adds no new transaction. */
  lemma {:induction false} ExpandIds(txs: seq<Tx>, k: nat, j: nat)
    requires k > 0 && |txs| == Merkle.Scaled(k, j)
    ensures TxIds(Merkle.Expand(txs, k, j)) == Merkle.Expand(TxIds(txs), k, j)
    ensures forall tx :: tx in Merkle.Expand(txs, k, j) ==> tx in txs
    decreases k
  {
    hide TxIds, Merkle.Scaled;
    Merkle.HalfAsMany(k, j);
    if k == 1 {
    } else if k % 2 == 1 {
      var n := |txs| - Merkle.Pow2(j);
      TxIdsTail(txs, n);
      TxIdsConcat(txs, txs[n..]);
      ExpandIds(txs + txs[n..], (k + 1) / 2, j + 1);
    } else {
      ExpandIds(txs, k / 2, j + 1);
    }
  }

  lemma FullIds(txs: seq<Tx>)
    requires |txs| > 0
    ensures TxIds(Merkle.Full(txs)) == Merkle.Full(TxIds(txs))
    ensures forall tx :: tx in Merkle.Full(txs) ==> tx in txs
  {
    ExpandIds(txs, |txs|, 0);
  }

  /** Exactly which other lists of transactions fit a header: within one height, those whose completion is the same. Any
      such list fits; and one that fits has it, unless a serialization reaches 2^32 bytes or identifying the two blocks
      collides. */
  lemma ListFitsExactly(a: Block, txs: seq<Tx>)
    requires a.Wf() && |txs| > 0 && AllWf(txs) && Merkle.Height(|txs|) == Merkle.Height(|a.txs|)
    ensures Merkle.Full(txs) == Merkle.Full(a.txs) ==> Block(a.header, txs).Wf()
    ensures Block(a.header, txs).Wf() && AllShort(a.txs) ==>
              Merkle.Full(txs) == Merkle.Full(a.txs) || Collide(a, Block(a.header, txs))
  {
    hide DoubleSha256, TxIds, AllShort, Collide, Merkle.Root, Merkle.Height, Merkle.Full;
    var b := Block(a.header, txs);
    FullIds(txs);
    FullIds(a.txs);
    Merkle.RootsAgreeExactly(PairHash, TxIds(a.txs), TxIds(txs));
    if b.Wf() && AllShort(a.txs) {
      if Merkle.Collide(PairHash, TxIds(a.txs), TxIds(txs)) {
        PairsCollide(a, b);
      } else {
        FullTxsAgree(a, b);
      }
    }
  }

  lemma FullTxsAgree(a: Block, b: Block)
    requires a.Wf() && b.Wf() && AllShort(a.txs) && TxIds(Merkle.Full(a.txs)) == TxIds(Merkle.Full(b.txs))
    ensures Merkle.Full(a.txs) == Merkle.Full(b.txs) || Collide(a, b)
  {
    hide DoubleSha256, TxId, Block.Hashes, HashedBytes, Merkle.Root, Merkle.Full, Short, Tx.Wf;
    var s, t := Merkle.Full(a.txs), Merkle.Full(b.txs);
    FullIds(a.txs);
    FullIds(b.txs);
    assert |s| == |TxIds(s)| == |TxIds(t)| == |t|;
    if s != t {
      var i :| 0 <= i < |s| && s[i] != t[i];
      assert s[i] in a.txs && t[i] in b.txs;
      var m :| 0 <= m < |a.txs| && a.txs[m] == s[i];
      var n :| 0 <= n < |b.txs| && b.txs[n] == t[i];
      TxIsHashed(a, m);
      TxIsHashed(b, n);
      assert TxIds(s)[i] == TxIds(t)[i] && TxIds(a.txs)[m] == TxIds(s)[i] && TxIds(b.txs)[n] == TxIds(t)[i];
      if HashedBytes(s[i]) == HashedBytes(t[i]) {
        HashedBytesBind(s[i], t[i]);
      }
    }
  }

  /** In particular a header fits the list with its last 2^j transactions repeated, when there are k * 2^j of them with
      k odd and more than one. */
  lemma HashAloneDoesNotBind(a: Block, k: nat, j: nat)
    requires a.Wf() && k % 2 == 1 && k > 1 && |a.txs| == Merkle.Scaled(k, j)
    ensures Merkle.Pow2(j) < |a.txs|
    ensures Block(a.header, a.txs + a.txs[|a.txs| - Merkle.Pow2(j)..]).Wf()
  {
    hide TxIds, Merkle.Root, Merkle.Scaled, Merkle.Pow2;
    Merkle.DuplicateTail(PairHash, TxIds(a.txs), k, j);
    var n := |a.txs| - Merkle.Pow2(j);
    TxIdsTail(a.txs, n);
    TxIdsConcat(a.txs, a.txs[n..]);
  }

  lemma CopiesFit(header: BlockHeader.Header, tx: Tx, n: nat)
    requires header.Wf() && tx.Wf() && n > 0
    ensures var h := header.(merkleRoot := Merkle.Doubled(PairHash, TxId(tx), Merkle.Height(n)));
            Block(h, Merkle.Copies(tx, n)).Wf()
  {
    hide TxId, PairHash, Merkle.Root, Merkle.Height, Merkle.Doubled, Tx.Wf;
    assert TxIds(Merkle.Copies(tx, n)) == Merkle.Copies(TxId(tx), n);
    Merkle.CopiesRoot(PairHash, TxId(tx), n);
  }

  /** Any two numbers of transactions of one height do share a header: that of copies of one transaction. */
  lemma CountsShareHeader(header: BlockHeader.Header, tx: Tx, n: nat, m: nat)
    requires header.Wf() && tx.Wf() && n > 0 && m > 0 && Merkle.Height(n) == Merkle.Height(m)
    ensures exists h: BlockHeader.Header ::
      h.Wf() && Block(h, Merkle.Copies(tx, n)).Wf() && Block(h, Merkle.Copies(tx, m)).Wf()
  {
    hide TxId, Block.Wf, BlockHeader.Header.Wf, Merkle.Height, Merkle.Doubled, Merkle.Copies;
    var h := header.(merkleRoot := Merkle.Doubled(PairHash, TxId(tx), Merkle.Height(n)));
    CopiesFit(header, tx, n);
    CopiesFit(header, tx, m);
    FitsHeader(Block(h, Merkle.Copies(tx, n)));
  }

  lemma FitsHeader(a: Block)
    requires a.Wf()
    ensures a.header.Wf()
  {}
}
