/** Hexadecimal text: the two writers of bc_hex.c, the character table of bc_hex.h, and the hash printer and parser of
    bc_utils.h. A character is its ASCII byte. */
module Hex {
  import opened Bytes

  const HASH_SIZE: nat := 32

  function HexChar(v: byte): byte {
    if v < 10 then 48 + v else 87 + v
  }

  /** `BcHexCharMap`: what the table does not name is zero. */
  function CharMap(c: byte): byte {
    if 48 <= c <= 57 then c - 48
    else if 97 <= c <= 102 then c - 87
    else if 65 <= c <= 70 then c - 55
    else 0
  }

  predicate IsHex(c: byte) {
    48 <= c <= 57 || 97 <= c <= 102 || 65 <= c <= 70
  }

  function LowerChar(c: byte): byte {
    if 65 <= c <= 90 then c + 32 else c
  }

  function High(b: byte): byte {
    (b & 0xF0) >> 4
  }

  function Low(b: byte): byte {
    b & 0x0F
  }

  function HexCharToByte(hi: byte, lo: byte): byte {
    CharMap(lo) | (CharMap(hi) << 4)
  }

  lemma CharsParse(b: byte)
    ensures HexCharToByte(HexChar(High(b)), HexChar(Low(b))) == b
    ensures HexChar(High(b)) != 0 && HexChar(Low(b)) != 0
  {}

  lemma ParsedChars(hi: byte, lo: byte)
    ensures HexChar(High(HexCharToByte(hi, lo))) == HexChar(CharMap(hi))
    ensures HexChar(Low(HexCharToByte(hi, lo))) == HexChar(CharMap(lo))
  {}

  lemma HexCharLowers(c: byte)
    ensures HexChar(CharMap(c)) == LowerChar(c) <==> IsHex(c)
  {}

  // What the digits mean, on characters.

  predicate IsHexDigit(c: char) {
    '0' <= c <= '9' || 'a' <= c <= 'f' || 'A' <= c <= 'F'
  }

  function DigitValue(c: char): nat
    requires IsHexDigit(c)
  {
    if '0' <= c <= '9' then c as int - '0' as int
    else if 'a' <= c <= 'f' then c as int - 'a' as int + 10
    else c as int - 'A' as int + 10
  }

  function Char(b: byte): (c: char)
    ensures c as int == Val(b)
  {
    Val(b) as char
  }

  lemma DigitsOfNibbles()
    ensures Val(HexChar(0)) == 48 && Val(0) == 0 && Val(HexChar(1)) == 49 && Val(1) == 1
    ensures Val(HexChar(2)) == 50 && Val(2) == 2 && Val(HexChar(3)) == 51 && Val(3) == 3
    ensures Val(HexChar(4)) == 52 && Val(4) == 4 && Val(HexChar(5)) == 53 && Val(5) == 5
    ensures Val(HexChar(6)) == 54 && Val(6) == 6 && Val(HexChar(7)) == 55 && Val(7) == 7
    ensures Val(HexChar(8)) == 56 && Val(8) == 8 && Val(HexChar(9)) == 57 && Val(9) == 9
    ensures Val(HexChar(10)) == 97 && Val(10) == 10 && Val(HexChar(11)) == 98 && Val(11) == 11
    ensures Val(HexChar(12)) == 99 && Val(12) == 12 && Val(HexChar(13)) == 100 && Val(13) == 13
    ensures Val(HexChar(14)) == 101 && Val(14) == 14 && Val(HexChar(15)) == 102 && Val(15) == 15
  {}

  /** A nibble is written as the digit of its value, in lower case. */
  lemma HexCharMeans(v: byte)
    requires v < 16
    ensures var c := Char(HexChar(v)); IsHexDigit(c) && !('A' <= c <= 'F') && DigitValue(c) == Val(v)
  {
    DigitsOfNibbles();
    assert v == 0 || v == 1 || v == 2 || v == 3 || v == 4 || v == 5 || v == 6 || v == 7
        || v == 8 || v == 9 || v == 10 || v == 11 || v == 12 || v == 13 || v == 14 || v == 15;
  }

  lemma TableEntries()
    ensures Val(48) == 48 && Val(CharMap(48)) == 0 && Val(49) == 49 && Val(CharMap(49)) == 1
    ensures Val(50) == 50 && Val(CharMap(50)) == 2 && Val(51) == 51 && Val(CharMap(51)) == 3
    ensures Val(52) == 52 && Val(CharMap(52)) == 4 && Val(53) == 53 && Val(CharMap(53)) == 5
    ensures Val(54) == 54 && Val(CharMap(54)) == 6 && Val(55) == 55 && Val(CharMap(55)) == 7
    ensures Val(56) == 56 && Val(CharMap(56)) == 8 && Val(57) == 57 && Val(CharMap(57)) == 9
    ensures Val(97) == 97 && Val(CharMap(97)) == 10 && Val(98) == 98 && Val(CharMap(98)) == 11
    ensures Val(99) == 99 && Val(CharMap(99)) == 12 && Val(100) == 100 && Val(CharMap(100)) == 13
    ensures Val(101) == 101 && Val(CharMap(101)) == 14 && Val(102) == 102 && Val(CharMap(102)) == 15
    ensures Val(65) == 65 && Val(CharMap(65)) == 10 && Val(66) == 66 && Val(CharMap(66)) == 11
    ensures Val(67) == 67 && Val(CharMap(67)) == 12 && Val(68) == 68 && Val(CharMap(68)) == 13
    ensures Val(69) == 69 && Val(CharMap(69)) == 14 && Val(70) == 70 && Val(CharMap(70)) == 15
  {}

  lemma HexBytes(c: byte)
    ensures IsHex(c) <==> IsHexDigit(Char(c))
  {
    ByteBounds(c);
  }

  lemma ByteBounds(c: byte)
    ensures 48 <= c <= 57 <==> 48 <= Val(c) <= 57
    ensures 97 <= c <= 102 <==> 97 <= Val(c) <= 102
    ensures 65 <= c <= 70 <==> 65 <= Val(c) <= 70
  {}

  /** The table gives a hexadecimal digit its value, and everything else zero. */
  lemma CharMapMeans(c: byte)
    ensures IsHex(c) <==> IsHexDigit(Char(c))
    ensures IsHex(c) ==> Val(CharMap(c)) == DigitValue(Char(c))
    ensures !IsHex(c) ==> CharMap(c) == 0
  {
    HexBytes(c);
    TableEntries();
  }

  lemma Nibbles(b: byte)
    ensures High(b) < 16 && Low(b) < 16 && Val(b) == 16 * Val(High(b)) + Val(Low(b))
  {}

  /** The text of a byte string: two digits a byte, the high half first. */
  function Text(s: seq<byte>): (t: seq<byte>)
    ensures |t| == 2 * |s|
  {
    seq(2 * |s|, i requires 0 <= i < 2 * |s| => if i % 2 == 0 then HexChar(High(s[i / 2])) else HexChar(Low(s[i / 2])))
  }

  lemma TextPair(s: seq<byte>, i: nat)
    requires i < |s|
    ensures Text(s)[2 * i] == HexChar(High(s[i])) && Text(s)[2 * i + 1] == HexChar(Low(s[i]))
  {
    hide HexChar, High, Low;
    assert 2 * i / 2 == i && (2 * i + 1) / 2 == i;
  }

  function Reverse(s: seq<byte>): (r: seq<byte>)
    ensures |r| == |s|
    ensures forall i :: 0 <= i < |s| ==> r[i] == s[|s| - 1 - i]
  {
    seq(|s|, i requires 0 <= i < |s| => s[|s| - 1 - i])
  }

  predicate AllHex(t: seq<byte>) {
    forall i :: 0 <= i < |t| ==> IsHexDigit(Char(t[i]))
  }

  /** A hexadecimal text read as a number. */
  function FromHex(t: seq<byte>): nat
    requires AllHex(t)
    decreases |t|
  {
    if t == [] then 0 else 16 * FromHex(t[..|t| - 1]) + DigitValue(Char(t[|t| - 1]))
  }

  lemma FromHexTwo(t: seq<byte>, c: byte, d: byte)
    requires AllHex(t) && IsHexDigit(Char(c)) && IsHexDigit(Char(d))
    ensures AllHex(t + [c, d])
    ensures FromHex(t + [c, d]) == 256 * FromHex(t) + 16 * DigitValue(Char(c)) + DigitValue(Char(d))
  {
    hide DigitValue, Char, IsHexDigit;
    var u := t + [c, d];
    assert u[..|u| - 1] == t + [c] && (t + [c])[..|t|] == t;
  }

  lemma TextLast(s: seq<byte>)
    requires s != []
    ensures Text(s) == Text(s[..|s| - 1]) + [HexChar(High(s[|s| - 1])), HexChar(Low(s[|s| - 1]))]
  {
    hide HexChar, High, Low;
  }

  /** The text of a byte string spells the number whose big-endian bytes they are. */
  lemma {:induction false} TextSpells(s: seq<byte>)
    ensures AllHex(Text(s)) && FromHex(Text(s)) == FromBigEndian(s)
    decreases |s|
  {
    hide HexChar, High, Low, Text, DigitValue, IsHexDigit, Char;
    if s == [] {
      assert Text(s) == [];
    } else {
      var init, b := s[..|s| - 1], s[|s| - 1];
      TextSpells(init);
      TextLast(s);
      Nibbles(b);
      HexCharMeans(High(b));
      HexCharMeans(Low(b));
      FromHexTwo(Text(init), HexChar(High(b)), HexChar(Low(b)));
    }
  }

  function Lower(s: seq<byte>): (t: seq<byte>)
    ensures |t| == |s|
  {
    seq(|s|, i requires 0 <= i < |s| => LowerChar(s[i]))
  }

  // The writers. Their index is 32 bits wide and so is its double.

  function Double(i: nat): (d: nat)
    ensures d < TWO_32
    ensures d % 2 == 0 && d <= 2 * i
    ensures 2 * i < TWO_32 ==> d == 2 * i
  {
    2 * i % TWO_32
  }

  /** `buf` with the two digits of `b` at `at`. */
  function WithDigits(buf: seq<byte>, at: nat, b: byte): (r: seq<byte>)
    requires at + 1 < |buf|
    ensures |r| == |buf|
  {
    buf[at := HexChar(High(b))][at + 1 := HexChar(Low(b))]
  }

  /** The buffer after the digits of the first `n` bytes of `s` have been stored. */
  function Stored(s: seq<byte>, buf: seq<byte>, n: nat): (r: seq<byte>)
    requires n <= |s| && 2 * |s| < |buf|
    ensures |r| == |buf|
  {
    if n == 0 then buf
    else WithDigits(Stored(s, buf, n - 1), Double(n - 1), s[n - 1])
  }

  function Printed(s: seq<byte>, buf: seq<byte>): (r: seq<byte>)
    requires 2 * |s| < |buf|
    ensures |r| == |buf|
  {
    Stored(s, buf, |s|)[Double(|s|) := 0]
  }

  function Incremented(i: nat): (j: nat)
    ensures j < TWO_32
  {
    (i + 1) % TWO_32
  }

  /** The loop index after `k` passes. */
  function Index(k: nat): (i: nat)
    ensures i < TWO_32
  {
    if k == 0 then 0 else Incremented(Index(k - 1))
  }

  lemma {:induction false} IndexCounts(k: nat)
    requires k < TWO_32
    ensures Index(k) == k
  {
    if k > 0 {
      IndexCounts(k - 1);
    }
  }

  /** A writer returns at once, or the loop index reaches the number of bytes. */
  ghost predicate Returns(bufsz: nat, datsz: nat) {
    bufsz < 2 * datsz + 1 || exists k: nat :: Index(k) >= datsz
  }

  /** The writers return exactly when the buffer is too small or the data shorter than 2^32 bytes: from there on the
      index wraps before it reaches the length. */
  lemma ReturnsExactly(bufsz: nat, datsz: nat)
    ensures Returns(bufsz, datsz) <==> bufsz < 2 * datsz + 1 || datsz < TWO_32
  {
    if datsz < TWO_32 {
      IndexCounts(datsz);
    }
  }

  /** The body of both loops. */
  method PutDigits(buf: array<byte>, at: nat, b: byte)
    requires at + 1 < buf.Length
    modifies buf
    ensures buf[..] == WithDigits(old(buf[..]), at, b)
  {
    var lo := (b & 0xF0) >> 4;
    var hi := b & 0x0F;
    buf[at] := HexChar(lo);
    buf[at + 1] := HexChar(hi);
  }

  method WriteForward(buf: array<byte>, bufsz: nat, dat: array<byte>) returns (n: nat)
    requires bufsz <= buf.Length && buf != dat
    requires bufsz < 2 * dat.Length + 1 || dat.Length < TWO_32
    modifies buf
    ensures bufsz < 2 * dat.Length + 1 ==> n == 0 && buf[..] == old(buf[..])
    ensures bufsz >= 2 * dat.Length + 1 ==> n == Double(dat.Length) && buf[..] == Printed(dat[..], old(buf[..]))
  {
    hide WithDigits;
    if bufsz < 2 * dat.Length + 1 {
      return 0;
    }
    if dat.Length < 1 {
      buf[0] := 0;
      return 0;
    }
    hide Double;
    var i, j := 0, 0;
    while i < dat.Length
      invariant i == j <= dat.Length
      invariant buf[..] == Stored(dat[..], old(buf[..]), i)
    {
      PutDigits(buf, Double(i), dat[j]);
      i, j := Incremented(i), Incremented(j);
    }
    buf[Double(i)] := 0;
    return Double(i);
  }

  method WriteBackward(buf: array<byte>, bufsz: nat, dat: array<byte>) returns (n: nat)
    requires bufsz <= buf.Length && buf != dat
    requires bufsz < 2 * dat.Length + 1 || dat.Length < TWO_32
    modifies buf
    ensures bufsz < 2 * dat.Length + 1 ==> n == 0 && buf[..] == old(buf[..])
    ensures bufsz >= 2 * dat.Length + 1 ==>
              n == Double(dat.Length) && buf[..] == Printed(Reverse(dat[..]), old(buf[..]))
  {
    hide WithDigits;
    if bufsz < 2 * dat.Length + 1 {
      return 0;
    }
    if dat.Length < 1 {
      buf[0] := 0;
      return 0;
    }
    ghost var r := Reverse(dat[..]);
    hide Reverse, Double;
    var i, j := 0, dat.Length - 1;
    while i < dat.Length
      invariant i <= dat.Length && 0 <= j < TWO_32
      invariant i < dat.Length ==> j == dat.Length - 1 - i
      invariant buf[..] == Stored(r, old(buf[..]), i)
    {
      assert r[i] == dat[j];
      PutDigits(buf, Double(i), dat[j]);
      i, j := Incremented(i), if j == 0 then TWO_32 - 1 else j - 1;
    }
    buf[Double(i)] := 0;
    return Double(i);
  }

  lemma {:induction false} StoredIsText(s: seq<byte>, buf: seq<byte>, n: nat)
    requires n <= |s| && 2 * |s| < |buf| && 2 * n <= TWO_32
    ensures Stored(s, buf, n)[..2 * n] == Text(s)[..2 * n]
    ensures Stored(s, buf, n)[2 * n..] == buf[2 * n..]
  {
    hide HexChar, High, Low, Text, Double;
    if n > 0 {
      StoredIsText(s, buf, n - 1);
      TextPair(s, n - 1);
      var r, r' := Stored(s, buf, n - 1), Stored(s, buf, n);
      assert Double(n - 1) == 2 * (n - 1);
      assert r'[..2 * n] == r[..2 * (n - 1)] + [HexChar(High(s[n - 1])), HexChar(Low(s[n - 1]))];
      assert Text(s)[..2 * n] == Text(s)[..2 * (n - 1)] + [HexChar(High(s[n - 1])), HexChar(Low(s[n - 1]))];
      assert r'[2 * n..] == r[2 * (n - 1)..][2..];
    }
  }

  lemma TextHasNoNul(s: seq<byte>, i: nat)
    requires i < 2 * |s|
    ensures Text(s)[i] != 0
  {
    CharsParse(s[i / 2]);
  }

  /** A writer leaves the terminated text and returns its length exactly when the data is shorter than 2^31 bytes;
      from there on its doubled index has wrapped. */
  lemma PrintsExactly(s: seq<byte>, buf: seq<byte>)
    requires |s| < TWO_32 && 2 * |s| < |buf|
    ensures Printed(s, buf) == Text(s) + [0] + buf[2 * |s| + 1..] <==> 2 * |s| < TWO_32
    ensures Double(|s|) == 2 * |s| <==> 2 * |s| < TWO_32
  {
    hide HexChar, High, Low, Text;
    if 2 * |s| < TWO_32 {
      StoredIsText(s, buf, |s|);
      var r := Stored(s, buf, |s|);
      assert r == r[..2 * |s|] + r[2 * |s|..];
      assert Printed(s, buf) == r[..2 * |s|] + [0] + r[2 * |s|..][1..];
    } else {
      TextHasNoNul(s, Double(|s|));
      assert (Text(s) + [0] + buf[2 * |s| + 1..])[Double(|s|)] == Text(s)[Double(|s|)];
    }
  }

  // Hashes: printed last byte first.

  function Parsed(s: seq<byte>): (h: seq<byte>)
    requires |s| >= 2 * HASH_SIZE
    ensures |h| == HASH_SIZE
  {
    Reverse(seq(HASH_SIZE, i requires 0 <= i < HASH_SIZE => HexCharToByte(s[2 * i], s[2 * i + 1])))
  }

  method Hash32FromCspan(h: array<byte>, s: seq<byte>)
    requires h.Length == HASH_SIZE && |s| >= 2 * HASH_SIZE
    modifies h
    ensures h[..] == Parsed(s)
  {
    hide HexCharToByte;
    for i := 0 to HASH_SIZE
      invariant forall k :: HASH_SIZE - i <= k < HASH_SIZE ==> h[k] == Parsed(s)[k]
    {
      h[HASH_SIZE - i - 1] := HexCharToByte(s[2 * i], s[2 * i + 1]);
    }
  }

  method Hash32StrMake(s: array<byte>, h: array<byte>)
    requires s.Length == 2 * HASH_SIZE + 1 && h.Length == HASH_SIZE && s != h
    modifies s
    ensures s[..] == Text(Reverse(h[..])) + [0]
  {
    hide Text;
    ghost var was := s[..];
    var _ := WriteBackward(s, 2 * HASH_SIZE + 1, h);
    PrintsExactly(Reverse(h[..]), was);
    assert was[2 * HASH_SIZE + 1..] == [];
  }

  /** A hash survives being printed and parsed. */
  lemma ParsePrinted(h: seq<byte>)
    requires |h| == HASH_SIZE
    ensures Parsed(Text(Reverse(h))) == h
  {
    hide HexChar, High, Low, HexCharToByte, Text, Reverse;
    var r, t := Reverse(h), Text(Reverse(h));
    forall k | 0 <= k < HASH_SIZE
      ensures Parsed(t)[k] == h[k]
    {
      var i := HASH_SIZE - 1 - k;
      TextPair(r, i);
      CharsParse(r[i]);
    }
  }

  lemma {:induction false} ReverseSpells(s: seq<byte>)
    ensures FromBigEndian(Reverse(s)) == FromLittleEndian(s)
    decreases |s|
  {
    hide Val;
    if s != [] {
      ReverseSpells(s[1..]);
      assert Reverse(s)[..|s| - 1] == Reverse(s[1..]);
    }
  }

  /** The text of a hash is the hexadecimal form of the number that the hash is compared as. */
  lemma HashTextSpells(h: seq<byte>)
    ensures AllHex(Text(Reverse(h))) && FromHex(Text(Reverse(h))) == FromLittleEndian(h)
  {
    TextSpells(Reverse(h));
    ReverseSpells(h);
  }

  lemma PrintParsedAt(s: seq<byte>, i: nat)
    requires |s| == 2 * HASH_SIZE && i < HASH_SIZE
    ensures var t := Text(Reverse(Parsed(s)));
            && t[2 * i] == HexChar(CharMap(s[2 * i]))
            && t[2 * i + 1] == HexChar(CharMap(s[2 * i + 1]))
  {
    hide HexChar, High, Low, HexCharToByte, CharMap, Text, Reverse;
    TextPair(Reverse(Parsed(s)), i);
    ParsedChars(s[2 * i], s[2 * i + 1]);
  }

  /** Printing what was parsed lowers the case of a 64-character text, exactly when it is hexadecimal throughout. */
  lemma PrintParsed(s: seq<byte>)
    requires |s| == 2 * HASH_SIZE
    ensures Text(Reverse(Parsed(s))) == Lower(s) <==> forall i :: 0 <= i < |s| ==> IsHex(s[i])
  {
    hide HexChar, CharMap, LowerChar, IsHex, Text, Reverse, Parsed;
    var t := Text(Reverse(Parsed(s)));
    forall k | 0 <= k < |s|
      ensures t[k] == Lower(s)[k] <==> IsHex(s[k])
    {
      PrintParsedAt(s, k / 2);
      HexCharLowers(s[k]);
    }
    if forall i :: 0 <= i < |s| ==> IsHex(s[i]) {
      assert t == Lower(s);
    }
  }
}
