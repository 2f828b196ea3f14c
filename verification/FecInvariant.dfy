// What every decoder step keeps: ordered lists without duplicates, and no data
// other than what was sent.
module FecInvariant {
  import opened Bytes
  import opened SeqNum
  import opened ParityCode
  import opened FecEncoder
  import opened FecGenerator
  import opened FecDecoder

  // ---- Order -----------------------------------------------------------------

  // A key list that is live in the window and strictly ascending.
  ghost predicate Sorted(b: int, keys: seq<u16>) { AllLive(b, keys) && Ascending(keys) }

  lemma NewerTotal(b: int, x: u16, y: u16)
    requires Live(b, x) && Live(b, y) && x != y
    ensures IsNewer(x, y) <==> !IsNewer(y, x)
  {
  }

  lemma NewerTransitive(b: int, x: u16, y: u16, z: u16)
    requires Live(b, x) && Live(b, y) && Live(b, z) && IsNewer(x, y) && IsNewer(y, z)
    ensures IsNewer(x, z)
  {
    ComparatorsAgree(b, y, x);
    ComparatorsAgree(b, z, y);
    ComparatorsAgree(b, z, x);
  }

  // Inserting a new key at its place keeps the list sorted.
  lemma InsertSorted(b: int, keys: seq<u16>, x: u16)
    requires Sorted(b, keys) && Live(b, x) && x !in keys
    ensures var i := InsertAt(keys, x); Sorted(b, keys[..i] + [x] + keys[i..])
  {
    hide IsNewer, Live;
    var i := InsertAt(keys, x);
    forall j | 0 <= j < i
      ensures IsNewer(x, keys[j])
    {
      NewerTotal(b, x, keys[j]);
    }
    forall j | i <= j < |keys|
      ensures IsNewer(keys[j], x)
    {
      if j > i {
        NewerTransitive(b, keys[j], keys[i], x);
      }
    }
  }

  lemma SuffixSorted(b: int, keys: seq<u16>, i: nat)
    requires Sorted(b, keys) && i <= |keys|
    ensures Sorted(b, keys[i..])
  {
    hide IsNewer, Live;
  }

  lemma PushSortedKeys(list: seq<RecoveredPacket>, r: RecoveredPacket)
    ensures var i := InsertAt(Keys(list), r.seqNum);
      Keys(PushSorted(list, r)) == Keys(list)[..i] + [r.seqNum] + Keys(list)[i..]
  {
  }

  lemma PushFecSortedKeys(list: seq<FecPacket>, f: FecPacket)
    ensures var i := InsertAt(FecKeys(list), f.seqNum);
      FecKeys(PushFecSorted(list, f)) == FecKeys(list)[..i] + [f.seqNum] + FecKeys(list)[i..]
  {
  }

  lemma NewestKeys(list: seq<RecoveredPacket>)
    ensures Keys(Newest(list)) == Keys(list)[|list| - |Newest(list)|..]
  {
  }

  lemma WithoutKeys(fecs: seq<FecPacket>, i: nat)
    requires i < |fecs|
    ensures FecKeys(Without(fecs, i)) == FecKeys(fecs)[..i] + FecKeys(fecs)[i + 1..]
  {
  }

  lemma CoverKeys(fecs: seq<FecPacket>, r: RecoveredPacket)
    ensures FecKeys(CoverAll(fecs, r)) == FecKeys(fecs)
    ensures forall k :: 0 <= k < |fecs| ==>
      ProtectedKeys(CoverAll(fecs, r)[k].protectedList) == ProtectedKeys(fecs[k].protectedList)
  {
  }

  // ---- Structure ---------------------------------------------------------------

  // The protected list is what the mask of the packet says, and is live.
  ghost predicate FecWellFormed(b: int, f: FecPacket) {
    && f.protectedList != [] && ProtectedKeys(f.protectedList) == CoveredSeqs(f.pkt)
    && AllLive(b, CoveredSeqs(f.pkt))
  }

  // A protected packet that is in the recovered list is known to the FEC packet.
  ghost predicate Linked(f: FecPacket, keys: seq<u16>) {
    forall j :: 0 <= j < |f.protectedList| && f.protectedList[j].seqNum in keys ==> f.protectedList[j].pkt.Some?
  }

  // Both lists strictly ascend in circular order, hence have no duplicates; the FEC
  // list is bounded; and every FEC packet knows its recovered packets.
  ghost predicate Ordered(b: int, st: State) {
    && Sorted(b, Keys(st.recovered)) && Sorted(b, FecKeys(st.fecs)) && |st.fecs| <= MAX_MEDIA_PACKETS
    && forall i :: 0 <= i < |st.fecs| ==> FecWellFormed(b, st.fecs[i]) && Linked(st.fecs[i], Keys(st.recovered))
  }

  // The same without anything about the FEC list as a whole.
  ghost predicate WellLinked(b: int, st: State) {
    && Sorted(b, Keys(st.recovered))
    && forall i :: 0 <= i < |st.fecs| ==> FecWellFormed(b, st.fecs[i]) && Linked(st.fecs[i], Keys(st.recovered))
  }

  lemma CoverLinks(f: FecPacket, keys: seq<u16>, keys': seq<u16>, r: RecoveredPacket)
    requires Linked(f, keys) && forall x :: x in keys' ==> x in keys || x == r.seqNum
    ensures Linked(CoverFec(f, r), keys')
  {
  }

  lemma AllCovered(b: int, fecs: seq<FecPacket>, keys: seq<u16>, keys': seq<u16>, r: RecoveredPacket)
    requires forall i :: 0 <= i < |fecs| ==> FecWellFormed(b, fecs[i]) && Linked(fecs[i], keys)
    requires forall x :: x in keys' ==> x in keys || x == r.seqNum
    ensures forall i :: 0 <= i < |fecs| ==> FecWellFormed(b, CoverAll(fecs, r)[i]) && Linked(CoverAll(fecs, r)[i], keys')
  {
    hide CoveredSeqs, Linked, Live;
    CoverKeys(fecs, r);
    forall i | 0 <= i < |fecs|
      ensures FecWellFormed(b, CoverAll(fecs, r)[i]) && Linked(CoverAll(fecs, r)[i], keys')
    {
      CoverLinks(fecs[i], keys, keys', r);
    }
  }

  lemma InsertMediaOrdered(b: int, st: State, seqNum: u16, media: MediaPacket)
    requires Ordered(b, st) && Live(b, seqNum)
    ensures Ordered(b, InsertMedia(st, seqNum, media))
  {
    if seqNum !in Keys(st.recovered) {
      hide IsNewer, Live, FecWellFormed, Linked, Ascending;
      var r := RecoveredPacket(seqNum, false, true, media);
      InsertSorted(b, Keys(st.recovered), seqNum);
      PushSortedKeys(st.recovered, r);
      CoverKeys(st.fecs, r);
      AllCovered(b, st.fecs, Keys(st.recovered), Keys(PushSorted(st.recovered, r)), r);
    }
  }

  lemma NewFecLinked(b: int, seqNum: u16, ssrc: SsrcBytes, fec: Packet, list: seq<RecoveredPacket>)
    requires AllLive(b, CoveredSeqs(fec)) && CoveredSeqs(fec) != []
    ensures FecWellFormed(b, NewFec(seqNum, ssrc, fec, list)) && Linked(NewFec(seqNum, ssrc, fec, list), Keys(list))
  {
    hide CoveredSeqs, Live;
  }

  lemma InsertFecOrdered(b: int, st: State, seqNum: u16, ssrc: SsrcBytes, fec: Packet)
    requires Ordered(b, st) && Live(b, seqNum) && AllLive(b, CoveredSeqs(fec))
    ensures Ordered(b, InsertFec(st, seqNum, ssrc, fec))
  {
    if seqNum !in FecKeys(st.fecs) && CoveredSeqs(fec) != [] {
      hide IsNewer, Live, FecWellFormed, Linked, CoveredSeqs, Ascending;
      var f := NewFec(seqNum, ssrc, fec, st.recovered);
      NewFecLinked(b, seqNum, ssrc, fec, st.recovered);
      InsertSorted(b, FecKeys(st.fecs), seqNum);
      PushFecSortedKeys(st.fecs, f);
      PushedFecOrdered(b, st, f);
    }
  }

  lemma PushedFecOrdered(b: int, st: State, f: FecPacket)
    requires Ordered(b, st) && FecWellFormed(b, f) && Linked(f, Keys(st.recovered))
    requires Sorted(b, FecKeys(PushFecSorted(st.fecs, f)))
    ensures var fecs := PushFecSorted(st.fecs, f);
      Ordered(b, st.(fecs := if |fecs| > MAX_MEDIA_PACKETS then fecs[1..] else fecs))
  {
    hide IsNewer, Live, FecWellFormed, Linked, InsertAt;
    var p, fecs, keys := InsertAt(FecKeys(st.fecs), f.seqNum), PushFecSorted(st.fecs, f), Keys(st.recovered);
    forall i | 0 <= i < |fecs|
      ensures FecWellFormed(b, fecs[i]) && Linked(fecs[i], keys)
    {
      assert fecs[i] == if i < p then st.fecs[i] else if i == p then f else st.fecs[i - 1];
    }
    if |fecs| > MAX_MEDIA_PACKETS {
      var rest := fecs[1..];
      SuffixSorted(b, FecKeys(fecs), 1);
      assert FecKeys(rest) == FecKeys(fecs)[1..];
      assert forall i :: 0 <= i < |rest| ==> rest[i] == fecs[i + 1];
    }
  }

  lemma DropStaleOrdered(b: int, st: State, seqNum: u16)
    requires Ordered(b, st)
    ensures Ordered(b, DropStaleFec(st, seqNum))
  {
    if st.fecs != [] {
      hide IsNewer, Live, FecWellFormed, Linked;
      SuffixSorted(b, FecKeys(st.fecs), 1);
      assert FecKeys(st.fecs[1..]) == FecKeys(st.fecs)[1..];
    }
  }

  // A received packet that belongs to the live window.
  ghost predicate ReceivedLive(b: int, rx: ReceivedPacket) {
    Live(b, rx.seqNum) && (rx.ReceivedFec? ==> AllLive(b, CoveredSeqs(rx.fec)))
  }

  lemma {:induction false} InsertAllOrdered(b: int, st: State, batch: seq<ReceivedPacket>)
    requires Ordered(b, st) && forall i :: 0 <= i < |batch| ==> ReceivedLive(b, batch[i])
    ensures Ordered(b, InsertAll(st, batch))
  {
    hide Ordered, CoveredSeqs;
    if batch != [] {
      var rx, before := batch[|batch| - 1], InsertAll(st, batch[..|batch| - 1]);
      InsertAllOrdered(b, st, batch[..|batch| - 1]);
      DropStaleOrdered(b, before, rx.seqNum);
      match rx
      case ReceivedMedia(n, media) => InsertMediaOrdered(b, DropStaleFec(before, n), n, media);
      case ReceivedFec(n, ssrc, fec) => InsertFecOrdered(b, DropStaleFec(before, n), n, ssrc, fec);
    }
  }

  lemma NewestOrdered(b: int, st: State)
    requires Ordered(b, st)
    ensures Ordered(b, st.(recovered := Newest(st.recovered))) && |Newest(st.recovered)| <= MAX_MEDIA_PACKETS
  {
    hide Sorted, FecWellFormed, Linked;
    NewestLinked(b, st);
  }

  lemma {:induction false} MissingIsCovered(list: seq<ProtectedPacket>, s: u16)
    requires s in Missing(list)
    ensures exists j :: 0 <= j < |list| && list[j].seqNum == s && list[j].pkt.None?
  {
    var n := |list| - 1;
    if list[n].pkt.None? && list[n].seqNum == s {
    } else {
      MissingIsCovered(list[..n], s);
    }
  }

  lemma RecoversMissing(b: int, st: State, i: nat)
    requires WellLinked(b, st) && i < |st.fecs| && |Missing(st.fecs[i].protectedList)| == 1
    ensures Live(b, Recover(st.fecs[i]).seqNum) && Recover(st.fecs[i]).seqNum !in Keys(st.recovered)
  {
    hide CoveredSeqs, Live, Known, Recovered;
    var f, r := st.fecs[i], Recover(st.fecs[i]);
    assert r.seqNum in Missing(f.protectedList);
    MissingIsCovered(f.protectedList, r.seqNum);
    var j :| 0 <= j < |f.protectedList| && f.protectedList[j].seqNum == r.seqNum && f.protectedList[j].pkt.None?;
    assert ProtectedKeys(f.protectedList)[j] == r.seqNum;
  }

  lemma RecoverAtLinked(b: int, st: State, i: nat)
    requires WellLinked(b, st) && i < |st.fecs| && |Missing(st.fecs[i].protectedList)| == 1
    ensures WellLinked(b, RecoverAt(st, i)) && |RecoverAt(st, i).recovered| <= MAX_MEDIA_PACKETS
  {
    hide Sorted, FecWellFormed, Linked, Recover, Missing;
    var r := Recover(st.fecs[i]);
    RecoversMissing(b, st, i);
    PushLinked(b, st, r);
    var mid := State(CoverAll(st.fecs, r), PushSorted(st.recovered, r));
    NewestLinked(b, mid);
    WithoutLinked(b, mid.(recovered := Newest(mid.recovered)), i);
  }

  lemma PushLinked(b: int, st: State, r: RecoveredPacket)
    requires WellLinked(b, st) && Live(b, r.seqNum) && r.seqNum !in Keys(st.recovered)
    ensures WellLinked(b, State(CoverAll(st.fecs, r), PushSorted(st.recovered, r)))
  {
    hide Sorted, FecWellFormed, Linked, Live;
    InsertSorted(b, Keys(st.recovered), r.seqNum);
    PushSortedKeys(st.recovered, r);
    AllCovered(b, st.fecs, Keys(st.recovered), Keys(PushSorted(st.recovered, r)), r);
  }

  lemma NewestLinked(b: int, st: State)
    requires WellLinked(b, st)
    ensures WellLinked(b, st.(recovered := Newest(st.recovered))) && |Newest(st.recovered)| <= MAX_MEDIA_PACKETS
  {
    hide Sorted, FecWellFormed;
    NewestKeys(st.recovered);
    SuffixSorted(b, Keys(st.recovered), |st.recovered| - |Newest(st.recovered)|);
  }

  lemma WithoutLinked(b: int, st: State, i: nat)
    requires WellLinked(b, st) && i < |st.fecs|
    ensures WellLinked(b, st.(fecs := Without(st.fecs, i)))
  {
    hide Sorted, FecWellFormed, Linked;
  }

  lemma RemovedSorted(b: int, keys: seq<u16>, i: nat)
    requires Sorted(b, keys) && i < |keys|
    ensures Sorted(b, keys[..i] + keys[i + 1..])
  {
    hide Live, IsNewer;
  }

  lemma RecoverAtOrdered(b: int, st: State, i: nat)
    requires Ordered(b, st) && i < |st.fecs| && |Missing(st.fecs[i].protectedList)| == 1
    ensures Ordered(b, RecoverAt(st, i)) && |RecoverAt(st, i).recovered| <= MAX_MEDIA_PACKETS
  {
    hide Sorted, FecWellFormed, Linked, Recover, Missing;
    RecoverAtLinked(b, st, i);
    CoverKeys(st.fecs, Recover(st.fecs[i]));
    WithoutKeys(CoverAll(st.fecs, Recover(st.fecs[i])), i);
    RemovedSorted(b, FecKeys(st.fecs), i);
  }

  lemma WithoutOrdered(b: int, st: State, i: nat)
    requires Ordered(b, st) && i < |st.fecs|
    ensures Ordered(b, st.(fecs := Without(st.fecs, i)))
  {
    hide Sorted, FecWellFormed, Linked;
    WithoutLinked(b, st, i);
    WithoutKeys(st.fecs, i);
    RemovedSorted(b, FecKeys(st.fecs), i);
  }

  lemma {:induction false} AttemptOrdered(b: int, st: State, i: nat)
    requires Ordered(b, st) && i <= |st.fecs| && |st.recovered| <= MAX_MEDIA_PACKETS
    ensures Ordered(b, Attempt(st, i)) && |Attempt(st, i).recovered| <= MAX_MEDIA_PACKETS
    decreases |st.fecs|, |st.fecs| - i
  {
    hide Ordered;
    if i == |st.fecs| {
    } else if |Missing(st.fecs[i].protectedList)| == 1 {
      RecoverAtOrdered(b, st, i);
      AttemptOrdered(b, RecoverAt(st, i), 0);
    } else if |Missing(st.fecs[i].protectedList)| == 0 {
      WithoutOrdered(b, st, i);
      AttemptOrdered(b, st.(fecs := Without(st.fecs, i)), i);
    } else {
      AttemptOrdered(b, st, i + 1);
    }
  }

  // Every call of DecodeFEC keeps both lists strictly ascending, free of duplicates,
  // at most 48 long, and every FEC packet linked to the recovered packets it covers.
  lemma DecodeOrdered(b: int, st: State, batch: seq<ReceivedPacket>)
    requires Ordered(b, st) && |st.recovered| <= MAX_MEDIA_PACKETS && batch != []
    requires forall i :: 0 <= i < |batch| ==> ReceivedLive(b, batch[i])
    ensures Ordered(b, Decode(st, batch)) && |Decode(st, batch).recovered| <= MAX_MEDIA_PACKETS
  {
    var st0 := ResetIfFar(st, batch);
    assert Ordered(b, st0);
    InsertAllOrdered(b, st0, batch);
    NewestOrdered(b, InsertAll(st0, batch));
    AttemptOrdered(b, InsertPackets(st0, batch), 0);
  }
}
