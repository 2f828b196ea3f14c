// The decoding half of class ForwardErrorCorrection: its methods, with the lists
// that they loop over and update, carry out exactly the steps of FecDecoder.
module FecMachine {
  import opened Options
  import opened Bytes
  import opened SeqNum
  import opened ParityCode
  import opened FecEncoder
  import opened FecGenerator
  import opened FecDecoder
  import opened FecInvariant
  import opened FecAuthentic
  import opened FecRecovery

  // All keys that are less than x come before those that are not.
  ghost predicate Partitioned(keys: seq<u16>, x: u16) {
    forall i, j :: 0 <= i < j < |keys| && IsNewer(x, keys[j]) ==> IsNewer(x, keys[i])
  }

  lemma MemberPartitions(keys: seq<u16>, p: nat)
    requires Ascending(keys) && p < |keys|
    ensures Partitioned(keys, keys[p])
    ensures forall j :: 0 <= j < |keys| ==> (IsNewer(keys[p], keys[j]) <==> j < p)
  {
    forall j | 0 <= j < |keys|
      ensures IsNewer(keys[p], keys[j]) <==> j < p
    {
      if j > p {
        assert IsNewer(keys[j], keys[p]);
      }
    }
  }

  // std::lower_bound, by halving: the first key that is not less than x, if the keys are
  // partitioned by that. On an ascending list it finds x exactly if x is there.
  method LowerBound(list: seq<ProtectedPacket>, x: u16) returns (i: nat)
    requires Ascending(ProtectedKeys(list))
    ensures i <= |list|
    ensures Partitioned(ProtectedKeys(list), x) ==>
      (forall j :: 0 <= j < i ==> IsNewer(x, list[j].seqNum)) && (forall j :: i <= j < |list| ==> !IsNewer(x, list[j].seqNum))
    ensures i < |list| && list[i].seqNum == x <==> x in ProtectedKeys(list)
  {
    hide IsNewer;
    ghost var keys := ProtectedKeys(list);
    i := 0;
    var length: nat := |list|;
    while length > 0
      invariant i + length <= |list|
      invariant Partitioned(keys, x) ==>
        (forall j :: 0 <= j < i ==> IsNewer(x, keys[j])) && (forall j :: i + length <= j < |list| ==> !IsNewer(x, keys[j]))
    {
      var half := length / 2;
      var middle := i + half;
      assert keys[middle] == list[middle].seqNum;
      if IsNewer(x, list[middle].seqNum) {
        i := middle + 1;
        length := length - half - 1;
      } else {
        length := half;
      }
    }
    FoundAt(list, x, i);
  }

  lemma FoundAt(list: seq<ProtectedPacket>, x: u16, i: nat)
    requires Ascending(ProtectedKeys(list)) && i <= |list|
    requires Partitioned(ProtectedKeys(list), x) ==>
      (forall j :: 0 <= j < i ==> IsNewer(x, ProtectedKeys(list)[j])) && (forall j :: i <= j < |list| ==> !IsNewer(x, ProtectedKeys(list)[j]))
    ensures i < |list| && list[i].seqNum == x <==> x in ProtectedKeys(list)
  {
    var keys := ProtectedKeys(list);
    if x in keys {
      var p :| 0 <= p < |keys| && keys[p] == x;
      MemberPartitions(keys, p);
    }
    hide IsNewer;
    assert i < |list| ==> keys[i] == list[i].seqNum;
  }

  lemma CoverAt(list: seq<ProtectedPacket>, i: nat, r: RecoveredPacket)
    requires Ascending(ProtectedKeys(list)) && i < |list| && list[i].seqNum == r.seqNum
    ensures CoverList(list, r) == list[i := list[i].(pkt := Some(r.pkt))]
  {
    forall j | 0 <= j < |list| && j != i
      ensures list[j].seqNum != r.seqNum
    {
      if i < j {
        assert IsNewer(ProtectedKeys(list)[j], ProtectedKeys(list)[i]);
      } else {
        assert IsNewer(ProtectedKeys(list)[i], ProtectedKeys(list)[j]);
      }
    }
  }

  lemma CoverNone(list: seq<ProtectedPacket>, r: RecoveredPacket)
    requires r.seqNum !in ProtectedKeys(list)
    ensures CoverList(list, r) == list
  {
    assert forall j :: 0 <= j < |list| ==> ProtectedKeys(list)[j] == list[j].seqNum;
  }

  // std::set_intersection of the recovered list with a protected list.

  function Common(list: seq<RecoveredPacket>, keys: seq<u16>): (s: seq<RecoveredPacket>)
  {
    if list == [] then [] else
      var rest := Common(list[..|list| - 1], keys);
      var r := list[|list| - 1];
      if r.seqNum in keys then rest + [r] else rest
  }

  lemma CommonGrows(list: seq<RecoveredPacket>, keys: seq<u16>, i: nat)
    requires i < |list|
    ensures Common(list[..i + 1], keys) == if list[i].seqNum in keys then Common(list[..i], keys) + [list[i]] else Common(list[..i], keys)
  {
    assert list[..i + 1][..i] == list[..i];
  }

  lemma {:induction false} CommonEnds(list: seq<RecoveredPacket>, keys: seq<u16>, i: nat)
    requires i <= |list| && forall p :: i <= p < |list| ==> list[p].seqNum !in keys
    ensures Common(list, keys) == Common(list[..i], keys)
    decreases |list| - i
  {
    if i < |list| {
      CommonGrows(list, keys, i);
      CommonEnds(list, keys, i + 1);
    } else {
      assert list[..i] == list;
    }
  }

  // No element from i on is among the first j keys.
  ghost predicate NoneBefore(keys1: seq<u16>, i: nat, keys2: seq<u16>, j: nat) {
    forall p, q :: i <= p < |keys1| && 0 <= q < j <= |keys2| ==> keys1[p] != keys2[q]
  }

  lemma OlderThanAllLater(b: int, x: u16, keys: seq<u16>, j: nat)
    requires Sorted(b, keys) && Live(b, x) && j < |keys| && IsNewer(keys[j], x)
    ensures forall q :: j <= q < |keys| ==> keys[q] != x
  {
    hide Live, IsNewer;
    forall q | j < q < |keys|
      ensures keys[q] != x
    {
      NewerTransitive(b, keys[q], keys[j], x);
      NotNewerItself(x);
    }
    NotNewerItself(x);
  }

  lemma NotNewerItself(x: u16)
    ensures !IsNewer(x, x)
  {
  }

  method SetIntersection(list: seq<RecoveredPacket>, protected: seq<ProtectedPacket>, ghost b: int) returns (common: seq<RecoveredPacket>)
    requires Sorted(b, Keys(list)) && Sorted(b, ProtectedKeys(protected))
    ensures common == Common(list, ProtectedKeys(protected))
  {
    hide Live, IsNewer;
    ghost var keys1, keys2 := Keys(list), ProtectedKeys(protected);
    common := [];
    var i, j := 0, 0;
    assert Common(list[..0], keys2) == [];
    while i < |list| && j < |protected|
      invariant i <= |list| && j <= |protected|
      invariant common == Common(list[..i], keys2) && NoneBefore(keys1, i, keys2, j)
      decreases |list| - i + |protected| - j
    {
      if IsNewer(protected[j].seqNum, list[i].seqNum) {
        CommonGrows(list, keys2, i);
        OlderThanAllLater(b, keys1[i], keys2, j);
        i := i + 1;
      } else if !IsNewer(list[i].seqNum, protected[j].seqNum) {
        CommonGrows(list, keys2, i);
        NewerTotalOrSame(b, keys1[i], keys2[j]);
        assert keys2[j] in keys2;
        forall p | i < p < |keys1|
          ensures keys1[p] != keys1[i]
        {
          assert IsNewer(keys1[p], keys1[i]);
          NotNewerItself(keys1[i]);
        }
        common := common + [list[i]];
        i, j := i + 1, j + 1;
      } else {
        OlderThanAllLater(b, keys2[j], keys1, i);
        j := j + 1;
      }
    }
    CommonEnds(list, keys2, i);
  }

  lemma NewerTotalOrSame(b: int, x: u16, y: u16)
    requires Live(b, x) && Live(b, y) && !IsNewer(x, y) && !IsNewer(y, x)
    ensures x == y
  {
  }

  lemma {:induction false} LookupGrows(list: seq<RecoveredPacket>, s: u16, i: nat)
    requires i < |list|
    ensures Lookup(list[..i + 1], s) ==
      if Lookup(list[..i], s).Some? then Lookup(list[..i], s)
      else if list[i].seqNum == s then Some(list[i].pkt) else None
  {
    if i > 0 {
      LookupGrows(list[1..], s, i - 1);
      assert list[..i + 1][1..] == list[1..][..i] && list[..i][1..] == list[1..][..i - 1];
    } else {
      assert list[..1] == [list[0]] && [list[0]][1..] == [];
    }
  }

  lemma {:induction false} CommonLookup(list: seq<RecoveredPacket>, keys: seq<u16>, s: u16)
    requires s in keys
    ensures Lookup(Common(list, keys), s) == Lookup(list, s)
  {
    if list != [] {
      var n := |list| - 1;
      CommonLookup(list[..n], keys, s);
      LookupGrows(list, s, n);
      assert list[..n + 1] == list;
      var c, rest := Common(list, keys), Common(list[..n], keys);
      if list[n].seqNum in keys {
        LookupGrows(c, s, |rest|);
        assert c[..|rest|] == rest && c[..|rest| + 1] == c;
      }
    }
  }

  lemma {:induction false} CommonAscends(list: seq<RecoveredPacket>, keys: seq<u16>)
    requires Ascending(Keys(list))
    ensures Ascending(Keys(Common(list, keys)))
    ensures forall r :: r in Common(list, keys) ==> r in list && r.seqNum in keys
  {
    hide IsNewer;
    if list != [] {
      var n := |list| - 1;
      assert Keys(list[..n]) == Keys(list)[..n];
      CommonAscends(list[..n], keys);
      forall r | r in Common(list[..n], keys)
        ensures IsNewer(list[n].seqNum, r.seqNum)
      {
        var i :| 0 <= i < n && list[i] == r;
        assert IsNewer(Keys(list)[n], Keys(list)[i]);
      }
    }
  }

  ghost predicate Assigned(result: seq<ProtectedPacket>, protected: seq<ProtectedPacket>, list: seq<RecoveredPacket>) {
    |result| == |protected| && forall q :: 0 <= q < |result| ==>
      result[q] == ProtectedPacket(protected[q].seqNum, Lookup(list, protected[q].seqNum))
  }

  lemma KeysDistinct(keys: seq<u16>)
    requires Ascending(keys)
    ensures forall i, j :: 0 <= i < |keys| && 0 <= j < |keys| && i != j ==> keys[i] != keys[j]
  {
    forall i, j | 0 <= i < j < |keys|
      ensures keys[i] != keys[j]
    {
      assert IsNewer(keys[j], keys[i]);
    }
  }

  lemma AssignedGrows(result: seq<ProtectedPacket>, protected: seq<ProtectedPacket>, common: seq<RecoveredPacket>, a: nat, k: nat)
    requires a < |common| && k < |protected| && Ascending(ProtectedKeys(protected)) && Ascending(Keys(common))
    requires Assigned(result, protected, common[..a]) && protected[k].seqNum == common[a].seqNum
    ensures Assigned(result[k := result[k].(pkt := Some(common[a].pkt))], protected, common[..a + 1])
  {
    hide IsNewer;
    KeysDistinct(ProtectedKeys(protected));
    KeysDistinct(Keys(common));
    var next := result[k := result[k].(pkt := Some(common[a].pkt))];
    assert Lookup(common[..a], common[a].seqNum).None?;
    forall q | 0 <= q < |protected|
      ensures next[q] == ProtectedPacket(protected[q].seqNum, Lookup(common[..a + 1], protected[q].seqNum))
    {
      LookupGrows(common, protected[q].seqNum, a);
      assert q != k ==> ProtectedKeys(protected)[q] != ProtectedKeys(protected)[k];
    }
  }

  lemma WalkOn(b: int, common: seq<u16>, a: nat, keys: seq<u16>, k: nat)
    requires Ascending(common) && Sorted(b, keys) && a < |common| && k < |keys| && common[a] == keys[k]
    ensures NoneBefore(common, a + 1, keys, k)
  {
    hide IsNewer, Live;
    forall p | a < p < |common|
      ensures forall j :: 0 <= j < k ==> common[p] != keys[j]
    {
      NotAmongOlder(b, common[p], keys, k);
    }
  }

  lemma AssignedAll(result: seq<ProtectedPacket>, protected: seq<ProtectedPacket>, list: seq<RecoveredPacket>)
    requires Assigned(result, protected, Common(list, ProtectedKeys(protected)))
    ensures Assigned(result, protected, list)
  {
    var keys := ProtectedKeys(protected);
    forall q | 0 <= q < |protected|
      ensures Lookup(Common(list, keys), protected[q].seqNum) == Lookup(list, protected[q].seqNum)
    {
      assert keys[q] in keys;
      CommonLookup(list, keys, protected[q].seqNum);
    }
  }

  // AssignRecoveredPackets, for a protected list that knows nothing yet.
  method AssignRecoveredPackets(protected: seq<ProtectedPacket>, list: seq<RecoveredPacket>, ghost b: int) returns (result: seq<ProtectedPacket>)
    requires Sorted(b, Keys(list)) && Sorted(b, ProtectedKeys(protected))
    requires forall q :: 0 <= q < |protected| ==> protected[q].pkt.None?
    ensures Assigned(result, protected, list)
  {
    hide Live, IsNewer, Common;
    ghost var keys := ProtectedKeys(protected);
    var common := SetIntersection(list, protected, b);
    CommonAscends(list, keys);
    result := protected;
    var k := 0;
    assert common[..0] == [];
    for a := 0 to |common|
      invariant k <= |protected| && Assigned(result, protected, common[..a])
      invariant NoneBefore(Keys(common), a, keys, k)
    {
      hide Lookup;
      assert common[a] in common;
      ghost var q :| 0 <= q < |keys| && keys[q] == common[a].seqNum;
      ghost var before := result;
      assert ProtectedKeys(result) == keys;
      assert forall j :: 0 <= j < k ==> Keys(common)[a] != keys[j];
      result, k := AssignOne(result, k, common[a], q, keys);
      AssignedGrows(before, protected, common, a, k);
      WalkOn(b, Keys(common), a, keys, k);
    }
    assert common[..|common|] == common;
    AssignedAll(result, protected, list);
  }

  lemma NotAmongOlder(b: int, x: u16, keys: seq<u16>, k: nat)
    requires Sorted(b, keys) && k < |keys| && IsNewer(x, keys[k])
    ensures forall j :: 0 <= j < k ==> x != keys[j]
  {
    hide Live;
    forall j | 0 <= j < k
      ensures x != keys[j]
    {
      NewerTotal(b, keys[k], keys[j]);
    }
  }

  // Walk on to the protected packet with the number of r, and give it the data of r.
  method AssignOne(list: seq<ProtectedPacket>, start: nat, r: RecoveredPacket, ghost q: nat, ghost keys: seq<u16>)
    returns (result: seq<ProtectedPacket>, k: nat)
    requires ProtectedKeys(list) == keys && q < |keys| && keys[q] == r.seqNum
    requires forall j :: 0 <= j < start ==> j < |keys| && keys[j] != r.seqNum
    ensures start <= k < |keys| && keys[k] == r.seqNum
    ensures result == list[k := list[k].(pkt := Some(r.pkt))]
  {
    k := start;
    assert start <= q;
    while list[k].seqNum != r.seqNum
      invariant start <= k <= q && forall j :: 0 <= j < k ==> keys[j] != r.seqNum
      decreases q - k
    {
      k := k + 1;
    }
    result := list[k := list[k].(pkt := Some(r.pkt))];
  }

  // list.push_back(x); list.sort(LessThan): where the new element ends up.
  method SortedPlace(keys: seq<u16>, x: u16) returns (i: nat)
    ensures i == InsertAt(keys, x)
  {
    i := 0;
    while i < |keys| && !IsNewer(keys[i], x)
      invariant i <= |keys| && InsertAt(keys, x) == i + InsertAt(keys[i..], x)
    {
      assert keys[i..][1..] == keys[i + 1..];
      i := i + 1;
    }
  }

  lemma AuthenticFits(b: int, sent: Stream, ssrc: SsrcBytes, f: FecPacket)
    requires GoodStream(sent, ssrc) && FecPacketAuthentic(b, sent, ssrc, f) && |Missing(f.protectedList)| == 1
    ensures FitsBuffers(f)
  {
    hide Version2, Carries, Ssrc, CoveredSeqs, Missing, Known, FecBitString, Parity;
    RecoverIsSent(b, sent, ssrc, f);
    assert |Recover(f).pkt| == RecoveredLength(f.pkt, Known(f.protectedList));
  }

  lemma OrderedAscends(b: int, st: State)
    requires Ordered(b, st)
    ensures forall i :: 0 <= i < |st.fecs| ==> Ascending(ProtectedKeys(st.fecs[i].protectedList))
  {
    hide CoveredSeqs, Live;
    forall i | 0 <= i < |st.fecs|
      ensures Ascending(ProtectedKeys(st.fecs[i].protectedList))
    {
      assert FecWellFormed(b, st.fecs[i]);
      CoveredAscends(st.fecs[i].pkt);
    }
  }

  lemma KeysAppend(protected: seq<ProtectedPacket>, s: u16)
    ensures ProtectedKeys(protected + [ProtectedPacket(s, None)]) == ProtectedKeys(protected) + [s]
  {
  }

  lemma OffsetsAppend(base: u16, offsets: seq<nat>, k: nat, s: u16)
    requires s == (base + k) % WRAP
    ensures AtOffsets(base, offsets + [k]) == AtOffsets(base, offsets) + [s]
  {
  }

  lemma MaskBitAt(fec: Packet, byteIndex: nat, bitIndex: nat)
    requires bitIndex < 8
    ensures MaskBit(fec, 8 * byteIndex + bitIndex) == BitAt(At(fec, 12 + byteIndex), bitIndex)
  {
    hide BitAt;
    var k := 8 * byteIndex + bitIndex;
    assert k / 8 == byteIndex && k % 8 == bitIndex;
  }

  lemma ReadMaskStep(protected: seq<ProtectedPacket>, base: u16, fec: Packet, k: nat, s: u16)
    requires s == (base + k) % WRAP && ProtectedKeys(protected) == AtOffsets(base, ProtectedOffsets(fec, k))
    ensures AtOffsets(base, ProtectedOffsets(fec, k + 1)) ==
      ProtectedKeys(if MaskBit(fec, k) then protected + [ProtectedPacket(s, None)] else protected)
  {
    hide MaskBit;
    KeysAppend(protected, s);
    OffsetsAppend(base, ProtectedOffsets(fec, k), k, s);
  }

  // The loops over mask bytes and mask bits. The sum wraps with the sequence number.
  method ReadMask(fec: Packet) returns (protected: seq<ProtectedPacket>)
    ensures ProtectedKeys(protected) == CoveredSeqs(fec)
    ensures forall q :: 0 <= q < |protected| ==> protected[q].pkt.None?
  {
    hide BitAt, MaskBit, ParseSequenceNumber, ProtectedOffsets, AtOffsets, ProtectedKeys;
    var base, maskSize := ParseSequenceNumber(fec), MaskSize(LBit(fec));
    protected := [];
    assert ProtectedKeys([]) == AtOffsets(base, ProtectedOffsets(fec, 0)) by { NothingProtected(base, fec); }
    for byteIndex := 0 to maskSize
      invariant ProtectedKeys(protected) == AtOffsets(base, ProtectedOffsets(fec, 8 * byteIndex))
      invariant forall q :: 0 <= q < |protected| ==> protected[q].pkt.None?
    {
      for bitIndex := 0 to 8
        invariant ProtectedKeys(protected) == AtOffsets(base, ProtectedOffsets(fec, 8 * byteIndex + bitIndex))
        invariant forall q :: 0 <= q < |protected| ==> protected[q].pkt.None?
      {
        var seqNum := (base + 8 * byteIndex + bitIndex) % WRAP;
        MaskBitAt(fec, byteIndex, bitIndex);
        ReadMaskStep(protected, base, fec, 8 * byteIndex + bitIndex, seqNum);
        if BitAt(At(fec, 12 + byteIndex), bitIndex) {
          protected := protected + [ProtectedPacket(seqNum, None)];
        }
      }
    }
  }

  lemma NothingProtected(base: u16, fec: Packet)
    ensures ProtectedKeys([]) == AtOffsets(base, ProtectedOffsets(fec, 0))
  {
  }

  class ForwardErrorCorrection {
    var fecs: seq<FecPacket>

    constructor ()
      ensures fecs == []
    {
      fecs := [];
    }

    method UpdateCoveringFECPackets(r: RecoveredPacket)
      requires forall i :: 0 <= i < |fecs| ==> Ascending(ProtectedKeys(fecs[i].protectedList))
      modifies this
      ensures fecs == CoverAll(old(fecs), r)
    {
      for i := 0 to |fecs|
        invariant |fecs| == |old(fecs)|
        invariant forall j :: 0 <= j < i ==> fecs[j] == CoverFec(old(fecs)[j], r)
        invariant forall j :: i <= j < |fecs| ==> fecs[j] == old(fecs)[j]
      {
        var list := fecs[i].protectedList;
        var j := LowerBound(list, r.seqNum);
        if j < |list| && list[j].seqNum == r.seqNum {
          CoverAt(list, j, r);
          fecs := fecs[i := fecs[i].(protectedList := list[j := list[j].(pkt := Some(r.pkt))])];
        } else {
          CoverNone(list, r);
        }
      }
    }

    method InsertMediaPacket(seqNum: u16, media: MediaPacket, recovered: seq<RecoveredPacket>) returns (list: seq<RecoveredPacket>)
      requires forall i :: 0 <= i < |fecs| ==> Ascending(ProtectedKeys(fecs[i].protectedList))
      modifies this
      ensures State(fecs, list) == InsertMedia(State(old(fecs), recovered), seqNum, media)
    {
      for i := 0 to |recovered|
        invariant forall j :: 0 <= j < i ==> Keys(recovered)[j] != seqNum
      {
        if seqNum == recovered[i].seqNum {
          assert Keys(recovered)[i] == seqNum;
          return recovered;
        }
      }
      var r := RecoveredPacket(seqNum, false, true, media);
      var place := SortedPlace(Keys(recovered), seqNum);
      list := recovered[..place] + [r] + recovered[place..];
      UpdateCoveringFECPackets(r);
    }

    method InsertFECPacket(seqNum: u16, ssrc: SsrcBytes, fec: Packet, recovered: seq<RecoveredPacket>, ghost b: int)
      requires Sorted(b, Keys(recovered)) && AllLive(b, CoveredSeqs(fec))
      modifies this
      ensures State(fecs, recovered) == InsertFec(State(old(fecs), recovered), seqNum, ssrc, fec)
    {
      hide CoveredSeqs, IsNewer, Live, InsertAt, Lookup;
      for i := 0 to |fecs|
        invariant forall j :: 0 <= j < i ==> FecKeys(fecs)[j] != seqNum
      {
        if seqNum == fecs[i].seqNum {
          assert FecKeys(fecs)[i] == seqNum;
          return;
        }
      }
      var protected := ReadMask(fec);
      if protected != [] {
        assert Sorted(b, ProtectedKeys(protected)) by { CoveredAscends(fec); }
        assert CoveredSeqs(fec) != [];
        var known := AssignRecoveredPackets(protected, recovered, b);
        var f := FecPacket(seqNum, ssrc, fec, known);
        assert f == NewFec(seqNum, ssrc, fec, recovered);
        var place := SortedPlace(FecKeys(fecs), seqNum);
        fecs := fecs[..place] + [f] + fecs[place..];
        if |fecs| > MAX_MEDIA_PACKETS {
          fecs := fecs[1..];
        }
      }
    }

    method InsertPackets(received: seq<ReceivedPacket>, recovered: seq<RecoveredPacket>, ghost b: int) returns (list: seq<RecoveredPacket>)
      requires Ordered(b, State(fecs, recovered)) && forall i :: 0 <= i < |received| ==> ReceivedLive(b, received[i])
      modifies this
      ensures State(fecs, list) == FecDecoder.InsertPackets(State(old(fecs), recovered), received)
    {
      hide Ordered, CoveredSeqs, AllLive, FecDecoder.InsertMedia, FecDecoder.InsertFec, Live;
      ghost var st := State(fecs, recovered);
      list := recovered;
      assert received[..0] == [];
      for k := 0 to |received|
        invariant State(fecs, list) == InsertAll(st, received[..k])
      {
        assert received[..k + 1][..k] == received[..k];
        var rx := received[k];
        InsertAllOrdered(b, st, received[..k]);
        DropStaleOrdered(b, State(fecs, list), rx.seqNum);
        if fecs != [] && Abs(rx.seqNum - fecs[0].seqNum) > 0x3fff {
          fecs := fecs[1..];
        }
        assert State(fecs, list) == DropStaleFec(InsertAll(st, received[..k]), rx.seqNum);
        match rx
        case ReceivedMedia(n, media) =>
          OrderedAscends(b, State(fecs, list));
          list := InsertMediaPacket(n, media, list);
        case ReceivedFec(n, ssrc, fec) =>
          assert Sorted(b, Keys(list)) by { OrderedSorted(b, State(fecs, list)); }
          InsertFECPacket(n, ssrc, fec, list, b);
      }
      assert received[..|received|] == received;
      if |list| > MAX_MEDIA_PACKETS {
        list := list[|list| - MAX_MEDIA_PACKETS..];
      }
    }

    // The list is searched again from its first FEC packet after every recovery, and
    // yet the loop ends: the list gets shorter whenever the search moves back.
    method AttemptRecover(recovered: seq<RecoveredPacket>, ghost b: int) returns (list: seq<RecoveredPacket>)
      requires Ordered(b, State(fecs, recovered)) && FitsAlong(State(fecs, recovered), 0)
      modifies this
      ensures State(fecs, list) == Attempt(State(old(fecs), recovered), 0)
    {
      hide Ordered, Missing, InsertAt, FitsBuffers;
      list := recovered;
      var i := 0;
      while i < |fecs|
        invariant i <= |fecs| && Ordered(b, State(fecs, list)) && FitsAlong(State(fecs, list), i)
        invariant Attempt(State(fecs, list), i) == Attempt(State(old(fecs), recovered), 0)
        decreases |fecs|, |fecs| - i
      {
        ghost var st := State(fecs, list);
        var missing := NumCoveredPacketsMissing(fecs[i]);
        if missing == 1 {
          RecoverAtOrdered(b, st, i);
          var r := RecoverPacket(fecs[i]);
          var place := SortedPlace(Keys(list), r.seqNum);
          list := list[..place] + [r] + list[place..];
          OrderedAscends(b, st);
          UpdateCoveringFECPackets(r);
          if |list| > MAX_MEDIA_PACKETS {
            list := list[|list| - MAX_MEDIA_PACKETS..];
          }
          fecs := fecs[..i] + fecs[i + 1..];
          assert State(fecs, list) == RecoverAt(st, i);
          i := 0;
        } else if missing == 0 {
          WithoutOrdered(b, st, i);
          fecs := fecs[..i] + fecs[i + 1..];
          assert State(fecs, list) == st.(fecs := Without(st.fecs, i));
        } else {
          i := i + 1;
        }
      }
    }

    method ResetState() returns (list: seq<RecoveredPacket>)
      modifies this
      ensures fecs == [] && list == []
    {
      fecs, list := [], [];
    }

    // DecodeFEC: one step of the decoder.
    method DecodeFEC(received: seq<ReceivedPacket>, recovered: seq<RecoveredPacket>, ghost b: int) returns (list: seq<RecoveredPacket>)
      requires received != [] && Decodable(b, State(fecs, recovered), received)
      modifies this
      ensures State(fecs, list) == Decode(State(old(fecs), recovered), received)
    {
      hide Ordered, ReceivedLive, FitsAlong;
      ghost var st := State(fecs, recovered);
      list := recovered;
      if |list| == MAX_MEDIA_PACKETS && Abs(received[0].seqNum - list[|list| - 1].seqNum) > MAX_MEDIA_PACKETS {
        list := ResetState();
      }
      assert State(fecs, list) == ResetIfFar(st, received);
      InsertedOrdered(b, st, received);
      list := InsertPackets(received, list, b);
      list := AttemptRecover(list, b);
    }
  }

  // Every packet that AttemptRecover recovers on its way fits the buffers.
  ghost predicate FitsAlong(st: State, i: nat)
    requires i <= |st.fecs|
    decreases |st.fecs|, |st.fecs| - i
  {
    if i == |st.fecs| then true
    else
      var missing := |Missing(st.fecs[i].protectedList)|;
      if missing == 1 then FitsBuffers(st.fecs[i]) && FitsAlong(RecoverAt(st, i), 0)
      else if missing == 0 then FitsAlong(st.(fecs := Without(st.fecs, i)), i)
      else FitsAlong(st, i + 1)
  }

  // What DecodeFEC asks for: lists in circular order, live numbers, and lengths that fit.
  ghost predicate Decodable(b: int, st: State, batch: seq<ReceivedPacket>) {
    && Ordered(b, st) && (forall i :: 0 <= i < |batch| ==> ReceivedLive(b, batch[i]))
    && (batch != [] ==> FitsAlong(InsertPackets(ResetIfFar(st, batch), batch), 0))
  }

  lemma InsertedOrdered(b: int, st: State, batch: seq<ReceivedPacket>)
    requires batch != [] && Ordered(b, st) && forall i :: 0 <= i < |batch| ==> ReceivedLive(b, batch[i])
    ensures Ordered(b, ResetIfFar(st, batch)) && Ordered(b, InsertPackets(ResetIfFar(st, batch), batch))
  {
    hide FecWellFormed, ReceivedLive;
    var st0 := ResetIfFar(st, batch);
    InsertAllOrdered(b, st0, batch);
    NewestOrdered(b, InsertAll(st0, batch));
  }

  // Packets that the sender made fit all along.
  lemma {:induction false} AuthenticFitsAlong(b: int, sent: Stream, ssrc: SsrcBytes, st: State, i: nat)
    requires GoodStream(sent, ssrc) && Authentic(b, sent, ssrc, st) && i <= |st.fecs|
    ensures FitsAlong(st, i)
    decreases |st.fecs|, |st.fecs| - i
  {
    hide GoodStream, Authentic, Missing, FitsBuffers;
    if i == |st.fecs| {
    } else if |Missing(st.fecs[i].protectedList)| == 1 {
      assert FecPacketAuthentic(b, sent, ssrc, st.fecs[i]) by { AuthenticAt(b, sent, ssrc, st, i); }
      AuthenticFits(b, sent, ssrc, st.fecs[i]);
      RecoverAtAuthentic(b, sent, ssrc, st, i);
      AuthenticFitsAlong(b, sent, ssrc, RecoverAt(st, i), 0);
    } else if |Missing(st.fecs[i].protectedList)| == 0 {
      WithoutAuthentic(b, sent, ssrc, st, i);
      AuthenticFitsAlong(b, sent, ssrc, st.(fecs := Without(st.fecs, i)), i);
    } else {
      AuthenticFitsAlong(b, sent, ssrc, st, i + 1);
    }
  }

  lemma AuthenticDecodable(b: int, sent: Stream, ssrc: SsrcBytes, st: State, batch: seq<ReceivedPacket>)
    requires GoodStream(sent, ssrc) && Invariant(b, sent, ssrc, st)
    requires forall i :: 0 <= i < |batch| ==> ReceivedLive(b, batch[i]) && ReceivedAuthentic(b, sent, ssrc, batch[i])
    ensures Decodable(b, st, batch)
  {
    hide GoodStream, Ordered, Authentic, ReceivedLive, ReceivedAuthentic;
    if batch != [] {
      InsertedInvariant(b, sent, ssrc, st, batch);
      AuthenticFitsAlong(b, sent, ssrc, InsertPackets(ResetIfFar(st, batch), batch), 0);
    }
  }

  lemma OrderedSorted(b: int, st: State)
    requires Ordered(b, st)
    ensures Sorted(b, Keys(st.recovered))
  {
  }

  lemma AuthenticAt(b: int, sent: Stream, ssrc: SsrcBytes, st: State, i: nat)
    requires Authentic(b, sent, ssrc, st) && i < |st.fecs|
    ensures FecPacketAuthentic(b, sent, ssrc, st.fecs[i])
  {
  }

  lemma RecoverAtAuthentic(b: int, sent: Stream, ssrc: SsrcBytes, st: State, i: nat)
    requires GoodStream(sent, ssrc) && Authentic(b, sent, ssrc, st) && i < |st.fecs| && |Missing(st.fecs[i].protectedList)| == 1
    ensures Authentic(b, sent, ssrc, RecoverAt(st, i))
  {
    hide GoodStream, FecPacketAuthentic, WasSent, RecoveredAuthentic, Missing, Recover;
    RecoverIsSent(b, sent, ssrc, st.fecs[i]);
    CoverAuthentic(b, sent, ssrc, st.fecs, Recover(st.fecs[i]));
    PushAuthentic(b, sent, st.recovered, Recover(st.fecs[i]));
  }

  lemma WithoutAuthentic(b: int, sent: Stream, ssrc: SsrcBytes, st: State, i: nat)
    requires Authentic(b, sent, ssrc, st) && i < |st.fecs|
    ensures Authentic(b, sent, ssrc, st.(fecs := Without(st.fecs, i)))
  {
    hide FecPacketAuthentic, RecoveredAuthentic;
  }

  // The invariant holds after the possible reset, and after the insertions.
  lemma InsertedInvariant(b: int, sent: Stream, ssrc: SsrcBytes, st: State, batch: seq<ReceivedPacket>)
    requires batch != [] && Invariant(b, sent, ssrc, st)
    requires forall i :: 0 <= i < |batch| ==> ReceivedLive(b, batch[i]) && ReceivedAuthentic(b, sent, ssrc, batch[i])
    ensures Ordered(b, ResetIfFar(st, batch))
    ensures Invariant(b, sent, ssrc, InsertPackets(ResetIfFar(st, batch), batch))
  {
    hide FecWellFormed, FecPacketAuthentic, ReceivedLive, ReceivedAuthentic;
    var st0 := ResetIfFar(st, batch);
    ResetAuthentic(b, sent, ssrc, st, batch);
    InsertAllOrdered(b, st0, batch);
    NewestOrdered(b, InsertAll(st0, batch));
    InsertAllAuthentic(b, sent, ssrc, st0, batch);
    NewestAuthentic(b, sent, ssrc, InsertAll(st0, batch));
  }
}
