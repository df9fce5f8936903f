/** Readers for what bc_message.h writes. The program has none: they are the specification that shows the message
    header and the version payload to be uniquely decodable. */
module Messages {
  import opened Bytes
  import opened Wire
  import opened Wrappers

  function ParseSigned(s: seq<byte>, k: nat): Option<(int, seq<byte>)> {
    match ParseInt(s, k)
    case None => None
    case Some((n, r)) => Some((if 2 * n < Pow256(k) then n else n - Pow256(k), r))
  }

  function ParseNetAddr(s: seq<byte>): Option<(NetAddr, seq<byte>)> {
    match ParseInt(s, 8)
    case None => None
    case Some((services, s1)) =>
      match ParseBytes(s1, 16)
      case None => None
      case Some((ip, s2)) =>
        match ParseInt(s2, 2)
        case None => None
        case Some((port, s3)) => Some((NetAddr(services, ip, port), s3))
  }

  function ParseHead(s: seq<byte>): Option<((int, nat, int), seq<byte>)> {
    match ParseSigned(s, 4)
    case None => None
    case Some((version, s1)) =>
      match ParseInt(s1, 8)
      case None => None
      case Some((flags, s2)) =>
        match ParseSigned(s2, 8)
        case None => None
        case Some((time, s3)) => Some(((version, flags, time), s3))
  }

  function ParseTail(s: seq<byte>): Option<((nat, seq<byte>, int), seq<byte>)> {
    match ParseInt(s, 8)
    case None => None
    case Some((nonce, s1)) =>
      match ParseScript(s1)
      case None => None
      case Some((userAgent, s2)) =>
        match ParseSigned(s2, 4)
        case None => None
        case Some((height, s3)) => Some(((nonce, userAgent, height), s3))
  }

  function ParseVersion(s: seq<byte>): Option<(VersionPayload, seq<byte>)> {
    match ParseHead(s)
    case None => None
    case Some(((version, flags, time), s1)) =>
      match ParseNetAddr(s1)
      case None => None
      case Some((recv, s2)) =>
        match ParseNetAddr(s2)
        case None => None
        case Some((from, s3)) =>
          match ParseTail(s3)
          case None => None
          case Some(((nonce, agent, height), s4)) =>
            Some((VersionPayload(version, flags, time, recv, from, nonce, agent, height), s4))
  }

  function ParseHeader(s: seq<byte>): Option<(MessageHeader, seq<byte>)> {
    match ParseBytes(s, 4)
    case None => None
    case Some((magic, s1)) =>
      match ParseBytes(s1, 12)
      case None => None
      case Some((command, s2)) =>
        match ParseInt(s2, 4)
        case None => None
        case Some((size, s3)) =>
          match ParseBytes(s3, 4)
          case None => None
          case Some((checksum, s4)) => Some((MessageHeader(magic, command, size, checksum), s4))
  }

  lemma Wrapped(v: int, p: int)
    requires p > 0 && -p <= 2 * v < p
    ensures v % p == if v < 0 then v + p else v
  {
    if v < 0 {
      assert v / p == -1;
    }
  }

  /** Two's complement is read back over the whole signed range. */
  lemma SignedParses(v: int, k: nat, rest: seq<byte>)
    requires 0 <= 2 * v + Pow256(k) < 2 * Pow256(k)
    ensures ParseSigned(Signed(v, k) + rest, k) == Some((v, rest))
  {
    hide LittleEndian, ParseInt, Pow256;
    Wrapped(v, Pow256(k));
    IntParses(v % Pow256(k), k, rest);
  }

  lemma NetAddrParses(a: NetAddr, rest: seq<byte>)
    requires a.Wf()
    ensures ParseNetAddr(NetAddrBytes(a) + rest) == Some((a, rest))
  {
    hide LittleEndian, ParseInt, ParseBytes, Pow256;
    Pow256Values();
    var s2 := LittleEndian(a.port, 2) + rest;
    var s1 := a.ip + s2;
    assert NetAddrBytes(a) + rest == LittleEndian(a.services, 8) + s1;
    IntParses(a.services, 8, s1);
    BytesParse(a.ip, s2);
    IntParses(a.port, 2, rest);
  }

  lemma HeadParses(p: VersionPayload, rest: seq<byte>)
    requires p.Wf()
    ensures ParseHead(VersionHead(p) + rest) == Some(((p.version, p.serviceFlags, p.time), rest))
  {
    hide LittleEndian, ParseInt, ParseSigned, Signed, Pow256;
    Pow256Values();
    var s2 := Signed(p.time, 8) + rest;
    var s1 := LittleEndian(p.serviceFlags, 8) + s2;
    assert VersionHead(p) + rest == Signed(p.version, 4) + s1;
    SignedParses(p.version, 4, s1);
    IntParses(p.serviceFlags, 8, s2);
    SignedParses(p.time, 8, rest);
  }

  lemma TailParses(p: VersionPayload, rest: seq<byte>)
    requires p.Wf()
    ensures ParseTail(VersionTail(p) + rest) == Some(((p.nonce, p.userAgent, p.startHeight), rest))
  {
    hide LittleEndian, ParseInt, ParseSigned, Signed, Script, ParseScript, Pow256;
    Pow256Values();
    var s2 := Signed(p.startHeight, 4) + rest;
    var s1 := Script(p.userAgent) + s2;
    assert VersionTail(p) + rest == LittleEndian(p.nonce, 8) + s1;
    IntParses(p.nonce, 8, s1);
    ScriptParses(p.userAgent, s2);
    SignedParses(p.startHeight, 4, rest);
  }

  /** A version payload is read back from the front of any byte stream, every field in its place. */
  lemma VersionParses(p: VersionPayload, rest: seq<byte>)
    requires p.Wf()
    ensures ParseVersion(VersionBytes(p) + rest) == Some((p, rest))
  {
    hide VersionHead, VersionTail, NetAddrBytes, ParseHead, ParseTail, ParseNetAddr;
    var s3 := VersionTail(p) + rest;
    var s2 := NetAddrBytes(p.from) + s3;
    var s1 := NetAddrBytes(p.recv) + s2;
    assert VersionBytes(p) + rest == VersionHead(p) + s1;
    HeadParses(p, s1);
    NetAddrParses(p.recv, s2);
    NetAddrParses(p.from, s3);
    TailParses(p, rest);
  }

  lemma HeaderParses(h: MessageHeader, rest: seq<byte>)
    requires h.Wf()
    ensures ParseHeader(HeaderBytes(h) + rest) == Some((h, rest))
  {
    hide LittleEndian, ParseInt, ParseBytes, Pow256;
    Pow256Values();
    var s3 := h.checksum + rest;
    var s2 := LittleEndian(h.size, 4) + s3;
    var s1 := h.command + s2;
    assert HeaderBytes(h) + rest == h.magic + s1;
    BytesParse(h.magic, s1);
    BytesParse(h.command, s2);
    IntParses(h.size, 4, s3);
    BytesParse(h.checksum, rest);
  }

  // Where the fields lie.

  /** A byte string read as a two's complement number, least significant byte first. */
  function FromSigned(s: seq<byte>): int {
    var n := FromLittleEndian(s);
    if 2 * n < Pow256(|s|) then n else n - Pow256(|s|)
  }

  lemma SignedLies(v: int, k: nat)
    requires 0 <= 2 * v + Pow256(k) < 2 * Pow256(k)
    ensures FromSigned(Signed(v, k)) == v
  {
    hide LittleEndian, FromLittleEndian, Pow256;
    Wrapped(v, Pow256(k));
    IntLies(v % Pow256(k), k);
  }

  lemma NetAddrLies(a: NetAddr)
    requires a.Wf()
    ensures var s := NetAddrBytes(a);
            && |s| == 26 && FromLittleEndian(s[..8]) == a.services && s[8..24] == a.ip
            && FromLittleEndian(s[24..]) == a.port
  {
    hide LittleEndian, FromLittleEndian, Pow256;
    Pow256Values();
    IntLies(a.services, 8);
    IntLies(a.port, 2);
    var s := NetAddrBytes(a);
    assert s[..8] == LittleEndian(a.services, 8) && s[24..] == LittleEndian(a.port, 2);
  }

  lemma HeaderLies(h: MessageHeader)
    requires h.Wf()
    ensures var s := HeaderBytes(h);
            && |s| == 24 && s[..4] == h.magic && s[4..16] == h.command && FromLittleEndian(s[16..20]) == h.size
            && s[20..] == h.checksum
  {
    hide LittleEndian, FromLittleEndian, Pow256;
    Pow256Values();
    IntLies(h.size, 4);
    assert HeaderBytes(h)[16..20] == LittleEndian(h.size, 4);
  }

  lemma HeadLies(p: VersionPayload)
    requires p.Wf()
    ensures var s := VersionHead(p);
            FromSigned(s[..4]) == p.version && FromLittleEndian(s[4..12]) == p.serviceFlags
            && FromSigned(s[12..]) == p.time
  {
    hide LittleEndian, FromLittleEndian, Signed, FromSigned, Pow256;
    Pow256Values();
    SignedLies(p.version, 4);
    IntLies(p.serviceFlags, 8);
    SignedLies(p.time, 8);
    var s := VersionHead(p);
    assert s[..4] == Signed(p.version, 4) && s[12..] == Signed(p.time, 8);
    assert s[4..12] == LittleEndian(p.serviceFlags, 8);
  }

  lemma TailLies(p: VersionPayload)
    requires p.Wf()
    ensures var s, n := VersionTail(p), |Varint(|p.userAgent|)|;
            && |s| == 12 + n + |p.userAgent| && FromLittleEndian(s[..8]) == p.nonce
            && s[8..8 + n] == Varint(|p.userAgent|) && s[8 + n..|s| - 4] == p.userAgent
            && FromSigned(s[|s| - 4..]) == p.startHeight
  {
    hide LittleEndian, FromLittleEndian, Signed, FromSigned, Varint, Pow256;
    Pow256Values();
    IntLies(p.nonce, 8);
    SignedLies(p.startHeight, 4);
    var s := VersionTail(p);
    assert s[..8] == LittleEndian(p.nonce, 8) && s[|s| - 4..] == Signed(p.startHeight, 4);
  }

  lemma VersionLies(p: VersionPayload)
    requires p.Wf()
    ensures var s, n := VersionBytes(p), |Varint(|p.userAgent|)|;
            && |s| == 84 + n + |p.userAgent|
            && FromSigned(s[..4]) == p.version && FromLittleEndian(s[4..12]) == p.serviceFlags
            && FromSigned(s[12..20]) == p.time
            && s[20..46] == NetAddrBytes(p.recv) && s[46..72] == NetAddrBytes(p.from)
            && FromLittleEndian(s[72..80]) == p.nonce && s[80..80 + n] == Varint(|p.userAgent|)
            && s[80 + n..|s| - 4] == p.userAgent && FromSigned(s[|s| - 4..]) == p.startHeight
  {
    hide FromLittleEndian, FromSigned, VersionHead, VersionTail, NetAddrBytes, Varint;
    HeadLies(p);
    TailLies(p);
    NetAddrLies(p.recv);
    NetAddrLies(p.from);
    VersionJoins(p);
  }

  lemma VersionJoins(p: VersionPayload)
    requires |NetAddrBytes(p.recv)| == |NetAddrBytes(p.from)| == 26
    ensures var s, h, t := VersionBytes(p), VersionHead(p), VersionTail(p);
            && |s| == 72 + |t| && s[..4] == h[..4] && s[4..12] == h[4..12] && s[12..20] == h[12..]
            && s[20..46] == NetAddrBytes(p.recv) && s[46..72] == NetAddrBytes(p.from) && s[72..80] == t[..8]
            && s[|s| - 4..] == t[|t| - 4..]
            && forall i, j :: 8 <= i <= j <= |t| ==> s[72 + i..72 + j] == t[i..j]
  {
    hide VersionHead, VersionTail, NetAddrBytes;
  }
}
