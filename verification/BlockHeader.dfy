/** The 80-byte block header (bc_types.h): its bytes, the nonce being the last four, and the proof-of-work test. */
module BlockHeader {
  import opened Bytes
  import opened Fips180
  import Int256

  datatype Header = Header(version: nat, prevBlock: seq<byte>, merkleRoot: seq<byte>,
                           timestamp: nat, bits: nat, nonce: nat) {
    predicate Wf() {
      && |prevBlock| == |merkleRoot| == 32
      && version < TWO_32 && timestamp < TWO_32 && bits < TWO_32 && nonce < TWO_32
    }

    /** The first 76 bytes, which do not depend on the nonce. */
    function Prefix(): seq<byte> {
      LittleEndian(version, 4) + prevBlock + merkleRoot + LittleEndian(timestamp, 4) + LittleEndian(bits, 4)
    }

    function Serialize(): (s: seq<byte>)
      requires Wf()
      ensures |s| == 80 && s[..76] == Prefix() && s[76..] == LittleEndian(nonce, 4)
    {
      Prefix() + LittleEndian(nonce, 4)
    }

    function Hash(): (d: seq<byte>)
      requires Wf()
      ensures |d| == 32
    {
      DoubleSha256(Serialize())
    }
  }

  /** Where each field lies, and in which byte order. */
  lemma FieldsLie(a: Header)
    requires a.Wf()
    ensures var s := a.Serialize();
            && FromLittleEndian(s[..4]) == a.version && s[4..36] == a.prevBlock && s[36..68] == a.merkleRoot
            && FromLittleEndian(s[68..72]) == a.timestamp && FromLittleEndian(s[72..76]) == a.bits
            && FromLittleEndian(s[76..]) == a.nonce
  {
    hide LittleEndian, FromLittleEndian, Pow256;
    Pow256Values();
    var s := a.Serialize();
    assert s[..4] == LittleEndian(a.version, 4) && s[68..72] == LittleEndian(a.timestamp, 4);
    assert s[72..76] == LittleEndian(a.bits, 4) && s[76..] == LittleEndian(a.nonce, 4);
    LittleEndianRoundTrip(a.version, 4);
    LittleEndianRoundTrip(a.timestamp, 4);
    LittleEndianRoundTrip(a.bits, 4);
    LittleEndianRoundTrip(a.nonce, 4);
  }

  /** The 80 bytes determine the header, so two (timestamp, nonce) pairs are never the same candidate. */
  lemma SerializeInjective(a: Header, b: Header)
    requires a.Wf() && b.Wf() && a.Serialize() == b.Serialize()
    ensures a == b
  {
    FieldsLie(a);
    FieldsLie(b);
  }

  /** `i256_le` on the header's hash and the target. */
  predicate Meets(header: Header, target: seq<byte>)
    requires header.Wf() && |target| == 32
  {
    Int256.LessOrEqual(header.Hash(), target)
  }

  /** No nonce from `lo` up to, not including, `hi` meets the target. */
  ghost predicate NoneMeets(header: Header, target: seq<byte>, lo: nat, hi: nat)
    requires header.Wf() && |target| == 32 && hi <= TWO_32
  {
    forall n: nat :: lo <= n < hi ==> !Meets(header.(nonce := n), target)
  }

  /** A header that meets the target its `bits` expand to has its hash, read as a number, at most the mantissa
      scaled by the exponent. */
  lemma MeetsIsProofOfWork(header: Header, target: seq<byte>)
    requires header.Wf() && |target| == 32 && 3 <= Int256.Exponent(header.bits) <= 32
    requires FromLittleEndian(target)
          == Int256.Mantissa(header.bits) * Pow256(Int256.Exponent(header.bits) - 3)
    ensures Meets(header, target) <==>
      FromLittleEndian(header.Hash())
      <= Int256.Mantissa(header.bits) * Pow256(Int256.Exponent(header.bits) - 3)
  {
    hide DoubleSha256, FromLittleEndian, Pow256, Int256.Mantissa, Int256.Exponent;
    Int256.LessOrEqualMeetsBits(header.Hash(), target, header.bits);
  }
}
