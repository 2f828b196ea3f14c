// RecoverPacket in a packet buffer: the FEC packet is copied in and every known
// packet is XORed out of it.
module FecRecovery {
  import opened Bytes
  import opened ParityCode
  import opened Buffers
  import opened FecDecoder

  // The buffer and the two length recovery octets hold the residue of the FEC packet
  // after the given known packets.
  ghost predicate HoldsResidue(buf: seq<byte>, length0: byte, length1: byte, f: Packet, ssrc: SsrcBytes, known: seq<Packet>)
    requires AllMediaSized(known)
  {
    && |buf| == IP_PACKET_SIZE && buf[0] & 0x3f == Residue(f, known, 0) && buf[1] == Residue(f, known, 1)
    && (forall i :: 4 <= i < 8 ==> buf[i] == Residue(f, known, i - 2))
    && buf[8..12] == ssrc
    && length0 == Residue(f, known, 6) && length1 == Residue(f, known, 7)
    && (forall i :: RTP_HEADER_SIZE <= i < IP_PACKET_SIZE ==> buf[i] == Residue(f, known, i - 4))
  }

  lemma XorOne(f: Packet, known: seq<Packet>, m: Packet, j: nat)
    requires AllMediaSized(known) && MediaSized(m)
    ensures AllMediaSized(known + [m])
    ensures Residue(f, known + [m], j) == Xor(Residue(f, known, j), BitString(m, j))
  {
    hide FecBitString, BitString;
    assert (known + [m])[..|known + [m]| - 1] == known;
  }

  lemma NothingCancelled(f: Packet)
    ensures forall j: nat {:trigger Residue(f, [], j)} :: Residue(f, [], j) == FecBitString(f, j)
  {
    hide FecBitString;
    XorZero();
  }

  // A buffer filled from the FEC packet, header fields first.
  ghost predicate FilledFrom(buf: seq<byte>, f: Packet, ssrc: SsrcBytes) {
    && |buf| == IP_PACKET_SIZE && buf[0] == At(f, 0) && buf[1] == At(f, 1) && buf[8..12] == ssrc
    && (forall i :: 4 <= i < 8 ==> buf[i] == At(f, i))
    && (forall i :: RTP_HEADER_SIZE <= i < IP_PACKET_SIZE ==>
          buf[i] == if i < RTP_HEADER_SIZE + ProtectionLength(f) then At(f, HeaderSize(LBit(f)) + i - RTP_HEADER_SIZE) else 0)
  }

  lemma FilledHoldsResidue(buf: seq<byte>, f: Packet, ssrc: SsrcBytes)
    requires FilledFrom(buf, f, ssrc)
    ensures HoldsResidue(buf, At(f, 8), At(f, 9), f, ssrc, [])
  {
    hide Residue, ProtectionLength, LBit;
    NothingCancelled(f);
  }

  // InitRecovery.
  method InitRecovery(f: Packet, ssrc: SsrcBytes) returns (buf: array<byte>, length0: byte, length1: byte)
    requires RTP_HEADER_SIZE + ProtectionLength(f) <= IP_PACKET_SIZE
    ensures fresh(buf) && buf.Length == IP_PACKET_SIZE
    ensures HoldsResidue(buf[..], length0, length1, f, ssrc, [])
  {
    hide HoldsResidue, LBit, ProtectionLength;
    buf := new byte[IP_PACKET_SIZE](_ => 0);
    var headerSize := HeaderSize(LBit(f));
    var payload := seq(ProtectionLength(f), k requires 0 <= k => At(f, headerSize + k));
    MemCpy(buf, RTP_HEADER_SIZE, payload);
    length0, length1 := At(f, 8), At(f, 9);
    MemCpy(buf, 0, [At(f, 0), At(f, 1)]);
    MemCpy(buf, 4, [At(f, 4), At(f, 5), At(f, 6), At(f, 7)]);
    MemCpy(buf, 8, ssrc);
    FilledHoldsResidue(buf[..], f, ssrc);
  }

  // XorPackets.
  method XorPackets(src: Packet, buf: array<byte>, length0: byte, length1: byte, ghost f: Packet, ghost ssrc: SsrcBytes, ghost known: seq<Packet>)
    returns (newLength0: byte, newLength1: byte)
    requires MediaSized(src) && |src| <= IP_PACKET_SIZE == buf.Length && AllMediaSized(known)
    requires HoldsResidue(buf[..], length0, length1, f, ssrc, known)
    modifies buf
    ensures AllMediaSized(known + [src]) && HoldsResidue(buf[..], newLength0, newLength1, f, ssrc, known + [src])
  {
    hide Xor, Hi, Lo, Residue;
    XorZero();
    ghost var was := buf[..];
    XorInto(buf, 0, src[..2]);
    XorInto(buf, 4, src[4..8]);
    var n := |src| - RTP_HEADER_SIZE;
    newLength0, newLength1 := Xor(length0, Hi(n)), Xor(length1, Lo(n));
    XorInto(buf, RTP_HEADER_SIZE, src[RTP_HEADER_SIZE..]);
    XorLowSix(was[0], src[0]);
    forall j: nat
      ensures AllMediaSized(known + [src])
      ensures Residue(f, known + [src], j) == Xor(Residue(f, known, j), BitString(src, j))
    {
      XorOne(f, known, src, j);
    }
    assert buf[8..12] == was[8..12];
  }

  lemma SetVersion(b: byte)
    ensures (b | 0x80) & 0xbf == (b & 0x3f) | 0x80
  {
  }

  // FinishRecovery.
  method FinishRecovery(buf: array<byte>, length0: byte, length1: byte, seqNum: u16, ghost f: Packet, ghost ssrc: SsrcBytes, ghost known: seq<Packet>)
    returns (pkt: Packet)
    requires buf.Length == IP_PACKET_SIZE && AllMediaSized(known)
    requires HoldsResidue(buf[..], length0, length1, f, ssrc, known)
    requires RecoveredLength(f, known) <= IP_PACKET_SIZE
    modifies buf
    ensures pkt == Recovered(f, ssrc, seqNum, known)
  {
    hide Residue, Hi, Lo, U16;
    ghost var was := buf[..];
    SetVersion(buf[0]);
    buf[0] := buf[0] | 0x80;
    buf[0] := buf[0] & 0xbf;
    MemCpy(buf, 2, [Hi(seqNum), Lo(seqNum)]);
    var length := U16(length0, length1) + RTP_HEADER_SIZE;
    pkt := buf[..length];
    forall i | 0 <= i < length
      ensures pkt[i] == RecoveredByte(f, ssrc, seqNum, known, i)
    {
      if 8 <= i < 12 {
        assert was[8..12][i - 8] == was[i];
      }
    }
  }

  lemma KnownGrows(list: seq<ProtectedPacket>, i: nat)
    requires i < |list|
    ensures Known(list[..i + 1]) == if list[i].pkt.Some? then Known(list[..i]) + [list[i].pkt.value] else Known(list[..i])
    ensures Missing(list[..i + 1]) == if list[i].pkt.None? then Missing(list[..i]) + [list[i].seqNum] else Missing(list[..i])
  {
    assert list[..i + 1][..i] == list[..i];
  }

  // The FEC packet and the packets it knows fit into packet buffers, and so does the
  // packet they yield.
  ghost predicate FitsBuffers(f: FecPacket) {
    && RTP_HEADER_SIZE + ProtectionLength(f.pkt) <= IP_PACKET_SIZE
    && (forall i :: 0 <= i < |f.protectedList| && f.protectedList[i].pkt.Some? ==> |f.protectedList[i].pkt.value| <= IP_PACKET_SIZE)
    && RecoveredLength(f.pkt, Known(f.protectedList)) <= IP_PACKET_SIZE
  }

  method RecoverPacket(f: FecPacket) returns (r: RecoveredPacket)
    requires |Missing(f.protectedList)| == 1 && FitsBuffers(f)
    ensures r == Recover(f)
  {
    hide HoldsResidue, RecoveredLength, ProtectionLength, Known, Missing, Recovered, MediaSized;
    var buf, length0, length1 := InitRecovery(f.pkt, f.ssrc);
    var list, seqNum := f.protectedList, 0;
    ghost var known: seq<Packet> := [];
    assert Known(list[..0]) == [] && Missing(list[..0]) == [] by { NothingYet(list); }
    for i := 0 to |list|
      invariant known == Known(list[..i])
      invariant HoldsResidue(buf[..], length0, length1, f.pkt, f.ssrc, known)
      invariant Missing(list[..i]) != [] ==> seqNum == Missing(list[..i])[|Missing(list[..i])| - 1]
    {
      KnownGrows(list, i);
      if list[i].pkt.None? {
        seqNum := list[i].seqNum;
      } else {
        length0, length1 := XorPackets(list[i].pkt.value, buf, length0, length1, f.pkt, f.ssrc, known);
        known := known + [list[i].pkt.value];
      }
    }
    assert list[..|list|] == list;
    var pkt := FinishRecovery(buf, length0, length1, seqNum, f.pkt, f.ssrc, known);
    r := RecoveredPacket(seqNum, true, false, pkt);
  }

  lemma NothingYet(list: seq<ProtectedPacket>)
    ensures Known(list[..0]) == [] && Missing(list[..0]) == []
  {
  }

  // NumCoveredPacketsMissing stops counting at two.
  method NumCoveredPacketsMissing(f: FecPacket) returns (missing: nat)
    ensures missing == if |Missing(f.protectedList)| > 1 then 2 else |Missing(f.protectedList)|
  {
    missing := 0;
    var list := f.protectedList;
    for i := 0 to |list|
      invariant missing == |Missing(list[..i])| <= 1
    {
      KnownGrows(list, i);
      if list[i].pkt.None? {
        missing := missing + 1;
        if missing > 1 {
          MissingMonotone(list, i + 1);
          break;
        }
      }
    }
    assert list[..|list|] == list;
  }

  lemma {:induction false} MissingMonotone(list: seq<ProtectedPacket>, i: nat)
    requires i <= |list|
    ensures |Missing(list[..i])| <= |Missing(list)|
    decreases |list| - i
  {
    hide Missing, Known;
    if i < |list| {
      KnownGrows(list, i);
      MissingMonotone(list, i + 1);
    } else {
      assert list[..i] == list;
    }
  }
}
