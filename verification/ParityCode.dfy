// The parity code of RFC 5109 as a specification: the protection bit string of
// a media packet (section 8.1), the parity of a list of packets, and the
// packet that section 9.2 reconstructs from an FEC packet and the packets that
// did arrive.
module ParityCode {
  import opened Bytes

  const IP_PACKET_SIZE := 1500
  const RTP_HEADER_SIZE := 12
  const FEC_HEADER_SIZE := 10
  const MASK_SIZE_L_BIT_SET := 6
  const MASK_SIZE_L_BIT_CLEAR := 2

  // The bytes of a packet, RTP header included.
  type Packet = seq<byte>

  function MaskSize(l: bool): nat { if l then MASK_SIZE_L_BIT_SET else MASK_SIZE_L_BIT_CLEAR }

  // Offset of the protected payload: FEC header, two octets of protection length, mask.
  function HeaderSize(l: bool): nat { FEC_HEADER_SIZE + 2 + MaskSize(l) }

  // A packet with an RTP header and a length after it that fits into 16 bits.
  predicate MediaSized(p: Packet) { RTP_HEADER_SIZE <= |p| < RTP_HEADER_SIZE + 0x10000 }

  predicate AllMediaSized(ps: seq<Packet>) { forall k :: 0 <= k < |ps| ==> MediaSized(ps[k]) }

  // Octet j of the protection bit string: P, X and CC; M and PT; the time stamp;
  // the length after the RTP header; then that payload, padded with zeros.
  function BitString(p: Packet, j: nat): byte
    requires MediaSized(p)
  {
    if j == 0 then p[0] & 0x3f
    else if j == 1 then p[1]
    else if j < 6 then p[j + 2]
    else if j == 6 then Hi(|p| - RTP_HEADER_SIZE)
    else if j == 7 then Lo(|p| - RTP_HEADER_SIZE)
    else At(p, j + 4)
  }

  // Octet j of the parity of a list of packets.
  function Parity(ps: seq<Packet>, j: nat): byte
    requires AllMediaSized(ps)
  {
    if ps == [] then 0 else Xor(Parity(ps[..|ps| - 1], j), BitString(ps[|ps| - 1], j))
  }

  // Octet j of the parity held in a packet buffer laid out for the given L bit.
  function BufferField(f: seq<byte>, l: bool, j: nat): byte {
    if j == 0 then At(f, 0) & 0x3f
    else if j == 1 then At(f, 1)
    else if j < 8 then At(f, j + 2)
    else At(f, HeaderSize(l) + j - 8)
  }

  predicate LBit(f: Packet) { At(f, 0) & 0x40 != 0 }

  function ProtectionLength(f: Packet): u16 { U16(At(f, 10), At(f, 11)) }

  // Octet j of the parity that the receiver takes from an FEC packet.
  function FecBitString(f: Packet, j: nat): byte {
    if j < 8 + ProtectionLength(f) then BufferField(f, LBit(f), j) else 0
  }

  // The FEC packet f carries the parity of ps, and is long enough for all of them.
  ghost predicate Protects(f: Packet, ps: seq<Packet>)
    requires AllMediaSized(ps)
  {
    && HeaderSize(LBit(f)) <= |f| <= IP_PACKET_SIZE
    && ProtectionLength(f) == |f| - HeaderSize(LBit(f))
    && forall j :: 0 <= j ==> FecBitString(f, j) == Parity(ps, j)
  }

  // Octet j of the bit string left when the packets that arrived are cancelled out.
  function Residue(f: Packet, known: seq<Packet>, j: nat): byte
    requires AllMediaSized(known)
  {
    Xor(FecBitString(f, j), Parity(known, j))
  }

  function RecoveredLength(f: Packet, known: seq<Packet>): nat
    requires AllMediaSized(known)
  {
    U16(Residue(f, known, 6), Residue(f, known, 7)) + RTP_HEADER_SIZE
  }

  // Octet i of the reconstructed packet: version 2, the sequence number that was
  // missing, the SSRC of the stream, and the residue everywhere else.
  function RecoveredByte(f: Packet, ssrc: seq<byte>, seqNum: u16, known: seq<Packet>, i: nat): byte
    requires |ssrc| == 4 && AllMediaSized(known)
  {
    if i == 0 then Residue(f, known, 0) | 0x80
    else if i == 1 then Residue(f, known, 1)
    else if i == 2 then Hi(seqNum)
    else if i == 3 then Lo(seqNum)
    else if i < 8 then Residue(f, known, i - 2)
    else if i < 12 then ssrc[i - 8]
    else Residue(f, known, i - 4)
  }

  function Recovered(f: Packet, ssrc: seq<byte>, seqNum: u16, known: seq<Packet>): (p: Packet)
    requires |ssrc| == 4 && AllMediaSized(known)
    ensures MediaSized(p)
  {
    seq(RecoveredLength(f, known), i requires 0 <= i => RecoveredByte(f, ssrc, seqNum, known, i))
  }

  // The sequence number of a packet, from its RTP header.
  function ParseSequenceNumber(p: Packet): u16 { U16(At(p, 2), At(p, 3)) }

  // The RTP header of p holds the sequence number s.
  predicate Carries(p: Packet, s: u16) { At(p, 2) == Hi(s) && At(p, 3) == Lo(s) }

  lemma CarriesParsed(p: Packet, s: u16)
    ensures Carries(p, s) <==> ParseSequenceNumber(p) == s
  {
    hide NatOf, ByteOf;
    U16RoundTrip(s);
    U16Bytes(At(p, 2), At(p, 3));
  }

  function Ssrc(p: Packet): seq<byte> { [At(p, 8), At(p, 9), At(p, 10), At(p, 11)] }

  predicate Version2(p: Packet) { At(p, 0) & 0xc0 == 0x80 }

  lemma {:induction false} ParityAppend(as_: seq<Packet>, bs: seq<Packet>, j: nat)
    requires AllMediaSized(as_) && AllMediaSized(bs)
    ensures AllMediaSized(as_ + bs)
    ensures Parity(as_ + bs, j) == Xor(Parity(as_, j), Parity(bs, j))
  {
    if bs == [] {
      assert as_ + bs == as_;
    } else {
      var b := bs[..|bs| - 1];
      ParityAppend(as_, b, j);
      assert (as_ + bs)[..|as_ + bs| - 1] == as_ + b;
    }
  }

  // Cancelling all packets but one out of their parity leaves that one.
  lemma {:induction false} ParityCancels(before: seq<Packet>, m: Packet, after: seq<Packet>, j: nat)
    requires AllMediaSized(before) && MediaSized(m) && AllMediaSized(after)
    ensures AllMediaSized(before + [m] + after) && AllMediaSized(before + after)
    ensures Xor(Parity(before + [m] + after, j), Parity(before + after, j)) == BitString(m, j)
  {
    assert [m][..0] == [];
    ParityAppend(before, [m], j);
    ParityAppend(before + [m], after, j);
    ParityAppend(before, after, j);
  }

  // The residue of the parity is the bit string of the missing packet.
  lemma ResidueIsMissing(f: Packet, before: seq<Packet>, m: Packet, after: seq<Packet>, j: nat)
    requires AllMediaSized(before) && MediaSized(m) && AllMediaSized(after)
    requires AllMediaSized(before + [m] + after) && AllMediaSized(before + after)
    requires Protects(f, before + [m] + after)
    ensures Residue(f, before + after, j) == BitString(m, j)
  {
    ParityCancels(before, m, after, j);
  }

  // Where octet i of a packet, its sequence number and SSRC apart, sits in the bit string.
  function FieldOf(i: nat): nat {
    if i < 2 then i else if i < 8 then (if i < 4 then 0 else i - 2) else if i < 12 then 0 else i - 4
  }

  lemma RecoveredByteFromResidue(f: Packet, known: seq<Packet>, m: Packet, s: u16, i: nat)
    requires MediaSized(m) && AllMediaSized(known) && Version2(m) && Carries(m, s) && i < |m|
    requires Residue(f, known, FieldOf(i)) == BitString(m, FieldOf(i))
    ensures RecoveredByte(f, Ssrc(m), s, known, i) == m[i]
  {
    hide Xor, Hi, Lo, Residue, ParseSequenceNumber;
  }

  lemma RecoveredLengthFromResidue(f: Packet, known: seq<Packet>, n: u16)
    requires AllMediaSized(known)
    requires Residue(f, known, 6) == Hi(n) && Residue(f, known, 7) == Lo(n)
    ensures RecoveredLength(f, known) == n + RTP_HEADER_SIZE
  {
    hide NatOf, ByteOf;
    U16RoundTrip(n);
  }

  // Recovery inverts generation: from the parity of a list of packets and all of
  // them but one, the missing packet comes back whole, header and payload.
  lemma RecoveryInvertsGeneration(f: Packet, before: seq<Packet>, m: Packet, s: u16, after: seq<Packet>)
    requires AllMediaSized(before) && MediaSized(m) && AllMediaSized(after)
    requires AllMediaSized(before + [m] + after) && AllMediaSized(before + after)
    requires Protects(f, before + [m] + after)
    requires Version2(m) && Carries(m, s)
    ensures Recovered(f, Ssrc(m), s, before + after) == m
  {
    hide NatOf, ByteOf;
    var known := before + after;
    ResidueIsMissing(f, before, m, after, 6);
    ResidueIsMissing(f, before, m, after, 7);
    RecoveredLengthFromResidue(f, known, |m| - RTP_HEADER_SIZE);
    forall i | 0 <= i < |m|
      ensures RecoveredByte(f, Ssrc(m), s, known, i) == m[i]
    {
      ResidueIsMissing(f, before, m, after, FieldOf(i));
      RecoveredByteFromResidue(f, known, m, s, i);
    }
  }
}
