/** The byte formats that bc_utils.h and bc_message.h write, and the parsers that show them to be uniquely decodable. */
module Wire {
  import opened Bytes
  import opened Wrappers

  // Compact integers.

  /** `bc_append_varint`, with the strict comparisons of the code. */
  function Varint(v: nat): (s: seq<byte>)
    ensures 1 <= |s| <= 9
  {
    if v < 0xFD then [Byte(v)]
    else if v < 0xFFFF then [0xFD] + LittleEndian(v, 2)
    else if v < 0xFFFF_FFFF then [0xFE] + LittleEndian(v, 4)
    else [0xFF] + LittleEndian(v, 8)
  }

  function ParseInt(s: seq<byte>, k: nat): Option<(nat, seq<byte>)> {
    if |s| < k then None else Some((FromLittleEndian(s[..k]), s[k..]))
  }

  /** Reads any of the four forms, whatever the value. */
  function ParseVarint(s: seq<byte>): Option<(nat, seq<byte>)> {
    if s == [] then None
    else if s[0] == 0xFD then ParseInt(s[1..], 2)
    else if s[0] == 0xFE then ParseInt(s[1..], 4)
    else if s[0] == 0xFF then ParseInt(s[1..], 8)
    else Some((Val(s[0]), s[1..]))
  }

  lemma IntParses(v: nat, k: nat, rest: seq<byte>)
    requires v < Pow256(k)
    ensures ParseInt(LittleEndian(v, k) + rest, k) == Some((v, rest))
  {
    var s := LittleEndian(v, k) + rest;
    assert s[..k] == LittleEndian(v, k) && s[k..] == rest;
    LittleEndianRoundTrip(v, k);
  }

  lemma MarkersApart(v: int)
    requires 0 <= v < 0xFD
    ensures Byte(v) != 0xFD && Byte(v) != 0xFE && Byte(v) != 0xFF
  {
    assert Val(0xFD) == 0xFD && Val(0xFE) == 0xFE && Val(0xFF) == 0xFF;
  }

  /** A varint is read back from the front of any byte stream. */
  lemma VarintParses(v: nat, rest: seq<byte>)
    requires v < TWO_64
    ensures ParseVarint(Varint(v) + rest) == Some((v, rest))
  {
    hide LittleEndian, FromLittleEndian, Pow256;
    Pow256Values();
    var s := Varint(v) + rest;
    if v < 0xFD {
      MarkersApart(v);
      assert s[1..] == rest;
    } else if v < 0xFFFF {
      IntParses(v, 2, rest);
      assert s[1..] == LittleEndian(v, 2) + rest;
    } else if v < 0xFFFF_FFFF {
      IntParses(v, 4, rest);
      assert s[1..] == LittleEndian(v, 4) + rest;
    } else {
      IntParses(v, 8, rest);
      assert s[1..] == LittleEndian(v, 8) + rest;
    }
  }

  /** Prefix-free: what follows a varint never changes what it says. */
  lemma VarintPrefixFree(v: nat, w: nat, x: seq<byte>, y: seq<byte>)
    requires v < TWO_64 && w < TWO_64 && Varint(v) + x == Varint(w) + y
    ensures v == w && x == y
  {
    VarintParses(v, x);
    VarintParses(w, y);
  }

  /** No other byte string that reads as `v` is shorter. */
  ghost predicate IsShortest(v: nat) {
    forall s :: ParseVarint(s) == Some((v, [])) ==> |Varint(v)| <= |s|
  }

  lemma FormBounds(s: seq<byte>, v: nat)
    requires ParseVarint(s) == Some((v, []))
    ensures |s| in {1, 3, 5, 9}
    ensures |s| == 1 ==> v < 0xFD
    ensures |s| == 3 ==> v <= 0xFFFF
    ensures |s| == 5 ==> v <= 0xFFFF_FFFF
  {
    hide FromLittleEndian, Pow256;
    Pow256Values();
    if s[0] == 0xFD {
      assert s[1..][..2] == s[1..];
      FromLittleEndianBound(s[1..]);
    } else if s[0] == 0xFE {
      assert s[1..][..4] == s[1..];
      FromLittleEndianBound(s[1..]);
    } else if s[0] == 0xFF {
      assert |s| == 9;
    } else {
      OtherMarkers(s[0]);
    }
  }

  lemma OtherMarkers(b: byte)
    requires b != 0xFD && b != 0xFE && b != 0xFF
    ensures Val(b) < 0xFD
  {}

  /** The strict comparisons cost space at exactly two values. */
  lemma VarintIsShortestExactly(v: nat)
    requires v < TWO_64
    ensures IsShortest(v) <==> v != 0xFFFF && v != 0xFFFF_FFFF
  {
    hide LittleEndian, FromLittleEndian, Pow256;
    if v == 0xFFFF {
      Pow256Values();
      IntParses(v, 2, []);
      var s := [0xFD] + LittleEndian(v, 2);
      assert s[1..] == LittleEndian(v, 2) + [];
      assert ParseVarint(s) == Some((v, []));
      assert |Varint(v)| == 5;
    } else if v == 0xFFFF_FFFF {
      Pow256Values();
      IntParses(v, 4, []);
      var s := [0xFE] + LittleEndian(v, 4);
      assert s[1..] == LittleEndian(v, 4) + [];
      assert ParseVarint(s) == Some((v, []));
      assert |Varint(v)| == 9;
    } else {
      forall s | ParseVarint(s) == Some((v, []))
        ensures |Varint(v)| <= |s|
      {
        FormBounds(s, v);
      }
    }
  }

  // Legacy transactions.

  datatype TxIn = TxIn(txid: seq<byte>, vout: nat, script: seq<byte>, sequence: nat) {
    predicate Wf() {
      |txid| == 32 && vout < TWO_32 && |script| < TWO_64 - 1 && sequence < TWO_32
    }
  }

  datatype TxOut = TxOut(amount: nat, script: seq<byte>) {
    predicate Wf() {
      amount < TWO_64 && |script| < TWO_64 - 1
    }
  }

  datatype Tx = Tx(version: nat, ins: seq<TxIn>, outs: seq<TxOut>, lockTime: nat) {
    predicate Wf() {
      && version < TWO_32 && lockTime < TWO_32 && |ins| < TWO_64 - 1 && |outs| < TWO_64 - 1
      && (forall i :: 0 <= i < |ins| ==> ins[i].Wf()) && (forall i :: 0 <= i < |outs| ==> outs[i].Wf())
    }
  }

  function Script(s: seq<byte>): seq<byte> {
    Varint(|s|) + s
  }

  function InBytes(x: TxIn): seq<byte> {
    x.txid + LittleEndian(x.vout, 4) + Script(x.script) + LittleEndian(x.sequence, 4)
  }

  function OutBytes(x: TxOut): seq<byte> {
    LittleEndian(x.amount, 8) + Script(x.script)
  }

  /** The encodings of `xs`, one after the other. */
  function Concat<T>(f: T -> seq<byte>, xs: seq<T>): seq<byte>
    decreases |xs|
  {
    if xs == [] then [] else Concat(f, xs[..|xs| - 1]) + f(xs[|xs| - 1])
  }

  /** A count, then that many encodings. */
  function Section<T>(f: T -> seq<byte>, xs: seq<T>): seq<byte> {
    Varint(|xs|) + Concat(f, xs)
  }

  function InsBytes(xs: seq<TxIn>): seq<byte> {
    Section(InBytes, xs)
  }

  function OutsBytes(xs: seq<TxOut>): seq<byte> {
    Section(OutBytes, xs)
  }

  function TxBytes(tx: Tx): seq<byte> {
    LittleEndian(tx.version, 4) + InsBytes(tx.ins) + OutsBytes(tx.outs) + LittleEndian(tx.lockTime, 4)
  }

  // The specification parser.

  function ParseBytes(s: seq<byte>, n: nat): Option<(seq<byte>, seq<byte>)> {
    if |s| < n then None else Some((s[..n], s[n..]))
  }

  function ParseScript(s: seq<byte>): Option<(seq<byte>, seq<byte>)> {
    match ParseVarint(s)
    case None => None
    case Some((n, r)) => ParseBytes(r, n)
  }

  function ParseIn(s: seq<byte>): Option<(TxIn, seq<byte>)> {
    match ParseBytes(s, 32)
    case None => None
    case Some((txid, s1)) =>
      match ParseInt(s1, 4)
      case None => None
      case Some((vout, s2)) =>
        match ParseScript(s2)
        case None => None
        case Some((script, s3)) =>
          match ParseInt(s3, 4)
          case None => None
          case Some((sequence, s4)) => Some((TxIn(txid, vout, script, sequence), s4))
  }

  function ParseOut(s: seq<byte>): Option<(TxOut, seq<byte>)> {
    match ParseInt(s, 8)
    case None => None
    case Some((amount, s1)) =>
      match ParseScript(s1)
      case None => None
      case Some((script, s2)) => Some((TxOut(amount, script), s2))
  }

  function ParseList<T>(p: seq<byte> -> Option<(T, seq<byte>)>, s: seq<byte>, n: nat): Option<(seq<T>, seq<byte>)>
    decreases n
  {
    if n == 0 then Some(([], s))
    else
      match p(s)
      case None => None
      case Some((x, s1)) =>
        match ParseList(p, s1, n - 1)
        case None => None
        case Some((xs, s2)) => Some(([x] + xs, s2))
  }

  function ParseSection<T>(p: seq<byte> -> Option<(T, seq<byte>)>, s: seq<byte>): Option<(seq<T>, seq<byte>)> {
    match ParseVarint(s)
    case None => None
    case Some((n, s1)) => ParseList(p, s1, n)
  }

  function ParseTx(s: seq<byte>): Option<(Tx, seq<byte>)> {
    match ParseInt(s, 4)
    case None => None
    case Some((version, s1)) =>
      match ParseSection(ParseIn, s1)
      case None => None
      case Some((ins, s2)) =>
        match ParseSection(ParseOut, s2)
        case None => None
        case Some((outs, s3)) =>
          match ParseInt(s3, 4)
          case None => None
          case Some((lockTime, s4)) => Some((Tx(version, ins, outs, lockTime), s4))
  }

  lemma BytesParse(x: seq<byte>, rest: seq<byte>)
    ensures ParseBytes(x + rest, |x|) == Some((x, rest))
  {}

  lemma ScriptParses(x: seq<byte>, rest: seq<byte>)
    requires |x| < TWO_64
    ensures ParseScript(Script(x) + rest) == Some((x, rest))
  {
    hide Varint, ParseVarint;
    assert Script(x) + rest == Varint(|x|) + (x + rest);
    VarintParses(|x|, x + rest);
    BytesParse(x, rest);
  }

  lemma InParses(x: TxIn, rest: seq<byte>)
    requires x.Wf()
    ensures ParseIn(InBytes(x) + rest) == Some((x, rest))
  {
    hide Script, ParseScript, LittleEndian, ParseInt, ParseBytes, Pow256;
    Pow256Values();
    var s3 := LittleEndian(x.sequence, 4) + rest;
    var s2 := Script(x.script) + s3;
    var s1 := LittleEndian(x.vout, 4) + s2;
    assert InBytes(x) + rest == x.txid + s1;
    BytesParse(x.txid, s1);
    IntParses(x.vout, 4, s2);
    ScriptParses(x.script, s3);
    IntParses(x.sequence, 4, rest);
  }

  lemma OutParses(x: TxOut, rest: seq<byte>)
    requires x.Wf()
    ensures ParseOut(OutBytes(x) + rest) == Some((x, rest))
  {
    hide Script, ParseScript, LittleEndian, ParseInt, Pow256;
    Pow256Values();
    var s1 := Script(x.script) + rest;
    assert OutBytes(x) + rest == LittleEndian(x.amount, 8) + s1;
    IntParses(x.amount, 8, s1);
    ScriptParses(x.script, rest);
  }

  lemma {:induction false} ConcatFirst<T>(f: T -> seq<byte>, xs: seq<T>)
    requires xs != []
    ensures Concat(f, xs) == f(xs[0]) + Concat(f, xs[1..])
    decreases |xs|
  {
    if |xs| > 1 {
      var init := xs[..|xs| - 1];
      ConcatFirst(f, init);
      assert xs[1..][..|xs| - 2] == init[1..];
    }
  }

  /** The reader `p` gets `x` back from the front of any stream. */
  ghost predicate ReadsBack<T>(f: T -> seq<byte>, p: seq<byte> -> Option<(T, seq<byte>)>, x: T) {
    forall rest :: p(f(x) + rest) == Some((x, rest))
  }

  lemma {:induction false} ListParses<T>(f: T -> seq<byte>, p: seq<byte> -> Option<(T, seq<byte>)>, xs: seq<T>,
                                         rest: seq<byte>)
    requires forall i :: 0 <= i < |xs| ==> ReadsBack(f, p, xs[i])
    ensures ParseList(p, Concat(f, xs) + rest, |xs|) == Some((xs, rest))
    decreases |xs|
  {
    if xs == [] {
      assert Concat(f, xs) + rest == rest;
    } else {
      ConcatFirst(f, xs);
      var s1 := Concat(f, xs[1..]) + rest;
      assert Concat(f, xs) + rest == f(xs[0]) + s1;
      assert ReadsBack(f, p, xs[0]);
      ListParses(f, p, xs[1..], rest);
      assert xs == [xs[0]] + xs[1..];
    }
  }

  /** What reads back one by one reads back as a counted section. */
  lemma SectionParses<T>(f: T -> seq<byte>, p: seq<byte> -> Option<(T, seq<byte>)>, xs: seq<T>, rest: seq<byte>)
    requires |xs| < TWO_64 && forall i :: 0 <= i < |xs| ==> ReadsBack(f, p, xs[i])
    ensures ParseSection(p, Section(f, xs) + rest) == Some((xs, rest))
  {
    hide Varint, ParseVarint, Concat, ParseList, ReadsBack;
    assert Section(f, xs) + rest == Varint(|xs|) + (Concat(f, xs) + rest);
    VarintParses(|xs|, Concat(f, xs) + rest);
    ListParses(f, p, xs, rest);
  }

  lemma InReadsBack(x: TxIn)
    requires x.Wf()
    ensures ReadsBack(InBytes, ParseIn, x)
  {
    hide InBytes, ParseIn;
    forall rest
      ensures ParseIn(InBytes(x) + rest) == Some((x, rest))
    {
      InParses(x, rest);
    }
  }

  lemma OutReadsBack(x: TxOut)
    requires x.Wf()
    ensures ReadsBack(OutBytes, ParseOut, x)
  {
    hide OutBytes, ParseOut;
    forall rest
      ensures ParseOut(OutBytes(x) + rest) == Some((x, rest))
    {
      OutParses(x, rest);
    }
  }

  /** Unique decodability: the parser reads a serialized transaction back from the front of any byte stream. */
  lemma TxParses(tx: Tx, rest: seq<byte>)
    requires tx.Wf()
    ensures ParseTx(TxBytes(tx) + rest) == Some((tx, rest))
  {
    hide Section, LittleEndian, ParseInt, ParseSection, Pow256, ReadsBack, TxIn.Wf, TxOut.Wf;
    Pow256Values();
    forall i | 0 <= i < |tx.ins|
      ensures ReadsBack(InBytes, ParseIn, tx.ins[i])
    {
      InReadsBack(tx.ins[i]);
    }
    forall i | 0 <= i < |tx.outs|
      ensures ReadsBack(OutBytes, ParseOut, tx.outs[i])
    {
      OutReadsBack(tx.outs[i]);
    }
    var ins, outs := InsBytes(tx.ins), OutsBytes(tx.outs);
    var s3 := LittleEndian(tx.lockTime, 4) + rest;
    var s2 := outs + s3;
    var s1 := ins + s2;
    assert TxBytes(tx) + rest == LittleEndian(tx.version, 4) + s1;
    IntParses(tx.version, 4, s1);
    SectionParses(InBytes, ParseIn, tx.ins, s2);
    SectionParses(OutBytes, ParseOut, tx.outs, s3);
    IntParses(tx.lockTime, 4, rest);
  }

  /** Serialization is injective, and no serialized transaction is a proper prefix of another. */
  lemma TxBytesInjective(a: Tx, b: Tx, x: seq<byte>, y: seq<byte>)
    requires a.Wf() && b.Wf() && TxBytes(a) + x == TxBytes(b) + y
    ensures a == b && x == y
  {
    hide TxBytes, ParseTx;
    TxParses(a, x);
    TxParses(b, y);
  }

  /** The bytes of a transaction that `bc_tx_txid` hashes: it passes their number to a 32-bit parameter. */
  function HashedBytes(tx: Tx): (s: seq<byte>)
    ensures |s| < TWO_32
  {
    TxBytes(tx)[..|TxBytes(tx)| % TWO_32]
  }

  predicate Short(tx: Tx) {
    |TxBytes(tx)| < TWO_32
  }

  /** A short transaction is determined by its hashed bytes, among transactions of any length. */
  lemma HashedBytesBind(a: Tx, b: Tx)
    requires a.Wf() && b.Wf() && Short(a) && HashedBytes(a) == HashedBytes(b)
    ensures a == b
  {
    hide TxBytes, Tx.Wf;
    var rest := TxBytes(b)[|HashedBytes(b)|..];
    assert TxBytes(a) == HashedBytes(a);
    assert TxBytes(a) + rest == TxBytes(b) + [];
    TxBytesInjective(a, b, rest, []);
  }

  /** The transaction with another lock time. */
  function Relocked(tx: Tx): Tx {
    tx.(lockTime := if tx.lockTime == 0 then 1 else 0)
  }

  /** From 2^32 bytes on the lock time, the last four bytes, is not hashed. */
  lemma LockTimeUnhashed(tx: Tx)
    requires tx.Wf() && !Short(tx)
    ensures Relocked(tx).Wf() && Relocked(tx) != tx && HashedBytes(Relocked(tx)) == HashedBytes(tx)
  {
    hide LittleEndian, Section;
    var s, t := TxBytes(tx), TxBytes(Relocked(tx));
    assert |s| == |t| && s[..|s| - 4] == t[..|t| - 4];
    assert |s| % TWO_32 <= |s| - TWO_32;
    assert s[..|s| % TWO_32] == s[..|s| - 4][..|s| % TWO_32];
  }

  /** There are such transactions: one output with a script of 2^32 bytes makes one. */
  lemma LongExample()
    ensures var tx := Tx(0, [], [TxOut(0, Zeros(TWO_32))], 0); tx.Wf() && !Short(tx)
  {
    hide LittleEndian, Varint;
    var x := TxOut(0, Zeros(TWO_32));
    assert [x][..0] == [];
    assert Concat(OutBytes, [x]) == OutBytes(x);
    assert |OutBytes(x)| > TWO_32;
  }

  /** The hashed bytes determine a transaction exactly when its serialization is shorter than 2^32 bytes. */
  lemma HashedBytesBindExactly(a: Tx)
    requires a.Wf()
    ensures (forall b: Tx :: b.Wf() && HashedBytes(b) == HashedBytes(a) ==> b == a) <==> Short(a)
  {
    hide HashedBytes, Tx.Wf, Short, Relocked;
    if Short(a) {
      forall b: Tx | b.Wf() && HashedBytes(b) == HashedBytes(a)
        ensures b == a
      {
        HashedBytesBind(a, b);
      }
    } else {
      LockTimeUnhashed(a);
    }
  }

  /** Byte 4 is the segwit marker 0x00 exactly when there are no inputs. */
  lemma MarkerMeansNoInputs(tx: Tx)
    requires tx.Wf()
    ensures |TxBytes(tx)| > 4
    ensures TxBytes(tx)[4] == 0 <==> tx.ins == []
  {
    hide LittleEndian, Concat;
    var v := Varint(|tx.ins|);
    assert TxBytes(tx)[4] == v[0];
    if |tx.ins| < 0xFD {
      assert Val(v[0]) == |tx.ins|;
      assert Val(0) == 0;
    }
  }

  // Where the fields lie.

  lemma IntLies(v: nat, k: nat)
    requires v < Pow256(k)
    ensures FromLittleEndian(LittleEndian(v, k)) == v
  {
    LittleEndianRoundTrip(v, k);
  }

  /** The four forms: the value itself, or a marker byte and the value on two, four or eight bytes. */
  lemma VarintLies(v: nat)
    requires v < TWO_64
    ensures var s := Varint(v);
            && (v < 253 ==> |s| == 1 && Val(s[0]) == v)
            && (253 <= v < 65535 ==> |s| == 3 && Val(s[0]) == 253 && FromLittleEndian(s[1..]) == v)
            && (65535 <= v < 4294967295 ==> |s| == 5 && Val(s[0]) == 254 && FromLittleEndian(s[1..]) == v)
            && (4294967295 <= v ==> |s| == 9 && Val(s[0]) == 255 && FromLittleEndian(s[1..]) == v)
  {
    hide LittleEndian, FromLittleEndian, Pow256;
    Pow256Values();
    var s := Varint(v);
    if v < 253 {
    } else if v < 65535 {
      IntLies(v, 2);
      assert s[1..] == LittleEndian(v, 2);
    } else if v < 4294967295 {
      IntLies(v, 4);
      assert s[1..] == LittleEndian(v, 4);
    } else {
      IntLies(v, 8);
      assert s[1..] == LittleEndian(v, 8);
    }
  }

  lemma InLies(x: TxIn)
    requires x.Wf()
    ensures var s, n := InBytes(x), |Varint(|x.script|)|;
            && |s| == 40 + n + |x.script| && s[..32] == x.txid && FromLittleEndian(s[32..36]) == x.vout
            && s[36..36 + n] == Varint(|x.script|) && s[36 + n..|s| - 4] == x.script
            && FromLittleEndian(s[|s| - 4..]) == x.sequence
  {
    hide LittleEndian, FromLittleEndian, Pow256, Varint;
    Pow256Values();
    IntLies(x.vout, 4);
    IntLies(x.sequence, 4);
    var s := InBytes(x);
    assert s[32..36] == LittleEndian(x.vout, 4) && s[|s| - 4..] == LittleEndian(x.sequence, 4);
  }

  lemma OutLies(x: TxOut)
    requires x.Wf()
    ensures var s, n := OutBytes(x), |Varint(|x.script|)|;
            && |s| == 8 + n + |x.script| && FromLittleEndian(s[..8]) == x.amount
            && s[8..8 + n] == Varint(|x.script|) && s[8 + n..] == x.script
  {
    hide LittleEndian, FromLittleEndian, Pow256, Varint;
    Pow256Values();
    IntLies(x.amount, 8);
    assert OutBytes(x)[..8] == LittleEndian(x.amount, 8);
  }

  /** The encodings of a list are those of its elements, in order. */
  lemma {:induction false} ConcatSplits<T>(f: T -> seq<byte>, xs: seq<T>, x: T, ys: seq<T>)
    ensures Concat(f, xs + [x] + ys) == Concat(f, xs) + f(x) + Concat(f, ys)
    decreases |ys|
  {
    var zs := xs + [x] + ys;
    if ys == [] {
      assert zs[..|zs| - 1] == xs;
    } else {
      var init := ys[..|ys| - 1];
      ConcatSplits(f, xs, x, init);
      assert zs[..|zs| - 1] == xs + [x] + init;
    }
  }

  lemma TxLies(tx: Tx)
    requires tx.Wf()
    ensures var s := TxBytes(tx);
            && |s| >= 8 && FromLittleEndian(s[..4]) == tx.version && FromLittleEndian(s[|s| - 4..]) == tx.lockTime
            && s[4..|s| - 4] == Varint(|tx.ins|) + Concat(InBytes, tx.ins)
                                + (Varint(|tx.outs|) + Concat(OutBytes, tx.outs))
  {
    hide LittleEndian, FromLittleEndian, Pow256, Varint, Concat;
    Pow256Values();
    IntLies(tx.version, 4);
    IntLies(tx.lockTime, 4);
    var s := TxBytes(tx);
    assert s[..4] == LittleEndian(tx.version, 4) && s[|s| - 4..] == LittleEndian(tx.lockTime, 4);
  }

  // Messages.

  datatype NetAddr = NetAddr(services: nat, ip: seq<byte>, port: nat) {
    predicate Wf() {
      services < TWO_64 && |ip| == 16 && port < 0x1_0000
    }
  }

  datatype VersionPayload = VersionPayload(version: int, serviceFlags: nat, time: int, recv: NetAddr, from: NetAddr,
                                           nonce: nat, userAgent: seq<byte>, startHeight: int) {
    predicate Wf() {
      && -0x8000_0000 <= version < 0x8000_0000 && -0x8000_0000 <= startHeight < 0x8000_0000
      && -0x8000_0000_0000_0000 <= time < 0x8000_0000_0000_0000
      && serviceFlags < TWO_64 && nonce < TWO_64 && recv.Wf() && from.Wf() && |userAgent| < TWO_32
    }
  }

  datatype MessageHeader = MessageHeader(magic: seq<byte>, command: seq<byte>, size: nat, checksum: seq<byte>) {
    predicate Wf() {
      |magic| == 4 && |command| == 12 && size < TWO_32 && |checksum| == 4
    }
  }

  /** A signed integer is stored in two's complement. */
  function Signed(v: int, k: nat): (s: seq<byte>)
    ensures |s| == k
  {
    LittleEndian(v % Pow256(k), k)
  }

  function NetAddrBytes(a: NetAddr): seq<byte> {
    LittleEndian(a.services, 8) + a.ip + LittleEndian(a.port, 2)
  }

  function VersionHead(p: VersionPayload): (s: seq<byte>)
    ensures |s| == 20
  {
    Signed(p.version, 4) + LittleEndian(p.serviceFlags, 8) + Signed(p.time, 8)
  }

  function VersionTail(p: VersionPayload): (s: seq<byte>)
    ensures |s| == 12 + |Varint(|p.userAgent|)| + |p.userAgent|
  {
    LittleEndian(p.nonce, 8) + Script(p.userAgent) + Signed(p.startHeight, 4)
  }

  function VersionBytes(p: VersionPayload): seq<byte> {
    VersionHead(p) + NetAddrBytes(p.recv) + NetAddrBytes(p.from) + VersionTail(p)
  }

  function HeaderBytes(h: MessageHeader): seq<byte> {
    h.magic + h.command + LittleEndian(h.size, 4) + h.checksum
  }

  /** The size of `bc_version_message_payload_t` with 64-bit pointers: two addresses of 32 bytes, and seven fields in
      slots of eight. `approx_size` is a 32-bit sum with it. */
  const VERSION_STRUCT_SIZE: nat := 2 * 32 + 7 * 8

  function ApproxSize(userAgent: nat): nat {
    (VERSION_STRUCT_SIZE + userAgent) % TWO_32
  }

  lemma VersionLength(p: VersionPayload)
    requires p.Wf()
    ensures |VersionBytes(p)| == 84 + |Varint(|p.userAgent|)| + |p.userAgent|
  {
    hide Varint, LittleEndian, VersionHead, VersionTail;
  }

  /** The one up-front extend is large enough exactly when its 32-bit size does not wrap. */
  lemma PayloadFitsExactly(p: VersionPayload)
    requires p.Wf()
    ensures |VersionBytes(p)| <= ApproxSize(|p.userAgent|) <==> |p.userAgent| + VERSION_STRUCT_SIZE < TWO_32
  {
    hide Varint, VersionBytes;
    VersionLength(p);
  }
}
