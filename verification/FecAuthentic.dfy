// Decoding gives back what was sent: over every run of the decoder on packets
// that the sender made, every recovered packet is the packet sent under that
// sequence number, byte for byte.
module FecAuthentic {
  import opened Bytes
  import opened SeqNum
  import opened ParityCode
  import opened FecEncoder
  import opened FecGenerator
  import opened FecDecoder
  import opened FecInvariant

  // The media stream: the packet sent under each unwrapped sequence number.
  type Stream = map<int, Packet>

  // One stream of RTP version 2 packets with one SSRC, numbered modulo 2^16, that
  // fit into the packet buffers.
  ghost predicate GoodStream(sent: Stream, ssrc: SsrcBytes) {
    forall u :: u in sent ==>
      MediaSized(sent[u]) && |sent[u]| <= IP_PACKET_SIZE && Version2(sent[u]) && Carries(sent[u], u % WRAP) && Ssrc(sent[u]) == ssrc
  }

  // p is what was sent under the number of the live window that s stands for.
  ghost predicate WasSent(b: int, sent: Stream, s: u16, p: Packet) {
    Unwrap(b, s) in sent && sent[Unwrap(b, s)] == p
  }

  ghost predicate AllSent(b: int, sent: Stream, keys: seq<u16>) {
    forall i :: 0 <= i < |keys| ==> Unwrap(b, keys[i]) in sent
  }

  ghost function SentFor(b: int, sent: Stream, keys: seq<u16>): (ps: seq<Packet>)
    requires AllSent(b, sent, keys)
    ensures |ps| == |keys| && forall i :: 0 <= i < |ps| ==> ps[i] == sent[Unwrap(b, keys[i])]
  {
    seq(|keys|, i requires 0 <= i < |keys| => sent[Unwrap(b, keys[i])])
  }

  // The FEC packet carries the parity of the sent packets that its mask names.
  ghost predicate FecSent(b: int, sent: Stream, f: Packet) {
    && AllSent(b, sent, CoveredSeqs(f)) && AllMediaSized(SentFor(b, sent, CoveredSeqs(f)))
    && Protects(f, SentFor(b, sent, CoveredSeqs(f)))
  }

  ghost predicate DataSent(b: int, sent: Stream, list: seq<ProtectedPacket>) {
    forall j :: 0 <= j < |list| && list[j].pkt.Some? ==> WasSent(b, sent, list[j].seqNum, list[j].pkt.value)
  }

  ghost predicate FecPacketAuthentic(b: int, sent: Stream, ssrc: SsrcBytes, f: FecPacket) {
    && f.ssrc == ssrc && FecSent(b, sent, f.pkt) && DataSent(b, sent, f.protectedList)
    && ProtectedKeys(f.protectedList) == CoveredSeqs(f.pkt)
  }

  ghost predicate RecoveredAuthentic(b: int, sent: Stream, list: seq<RecoveredPacket>) {
    forall i :: 0 <= i < |list| ==> WasSent(b, sent, list[i].seqNum, list[i].pkt)
  }

  ghost predicate Authentic(b: int, sent: Stream, ssrc: SsrcBytes, st: State) {
    && RecoveredAuthentic(b, sent, st.recovered)
    && forall i :: 0 <= i < |st.fecs| ==> FecPacketAuthentic(b, sent, ssrc, st.fecs[i])
  }

  // A received packet is one that was sent, media or FEC.
  ghost predicate ReceivedAuthentic(b: int, sent: Stream, ssrc: SsrcBytes, rx: ReceivedPacket) {
    match rx
    case ReceivedMedia(n, media) => WasSent(b, sent, n, media)
    case ReceivedFec(n, ssrc', fec) => ssrc' == ssrc && FecSent(b, sent, fec)
  }

  // What the encoder makes of sent packets is an FEC packet in that sense.
  lemma EncodedIsSent(b: int, sent: Stream, ssrc: SsrcBytes, f: Packet, media: seq<Packet>, row: seq<byte>)
    requires GoodStream(sent, ssrc) && AllMediaSized(media) && FecFor(f, media, row)
    requires forall i :: 0 <= i < |media| ==> WasSent(b, sent, ParseSequenceNumber(media[i]), media[i])
    ensures FecSent(b, sent, f)
  {
    hide ParseSequenceNumber, CoveredSeqs, Protects, RowBit;
    var sel := Protected(media, row);
    SelectedFrom(media, seq(|media|, i => i), row);
    forall i | 0 <= i < |sel|
      ensures WasSent(b, sent, CoveredSeqs(f)[i], sel[i])
    {
      assert sel[i] in sel;
      var k :| 0 <= k < |media| && media[k] == sel[i];
    }
    assert SentFor(b, sent, CoveredSeqs(f)) == sel;
  }

  lemma {:induction false} SelectedFrom(media: seq<Packet>, cols: seq<nat>, row: seq<byte>)
    requires |media| == |cols|
    ensures forall m :: m in Selected(media, cols, row) ==> m in media
  {
    hide RowBit;
    if media != [] {
      SelectedFrom(media[..|media| - 1], cols[..|media| - 1], row);
    }
  }

  // The known packets of a list are its data without the missing ones.

  lemma {:induction false} KnownIfNoneMissing(list: seq<ProtectedPacket>, data: seq<Packet>)
    requires |data| == |list| && forall j :: 0 <= j < |list| ==> list[j].pkt.Some? && list[j].pkt.value == data[j]
    ensures Known(list) == data && Missing(list) == []
  {
    if list != [] {
      KnownIfNoneMissing(list[..|list| - 1], data[..|list| - 1]);
    }
  }

  lemma {:induction false} MissingNone(list: seq<ProtectedPacket>)
    requires Missing(list) == []
    ensures forall j :: 0 <= j < |list| ==> list[j].pkt.Some?
  {
    if list != [] {
      MissingNone(list[..|list| - 1]);
    }
  }

  lemma {:induction false} OneMissing(list: seq<ProtectedPacket>, data: seq<Packet>) returns (m: nat)
    requires |data| == |list| && |Missing(list)| == 1
    requires forall j :: 0 <= j < |list| && list[j].pkt.Some? ==> list[j].pkt.value == data[j]
    ensures m < |list| && Missing(list) == [list[m].seqNum]
    ensures Known(list) == data[..m] + data[m + 1..]
  {
    var n := |list| - 1;
    assert list[..n + 1] == list && data[..n] + [data[n]] == data;
    LastProtected(list);
    if list[n].pkt.None? {
      m := n;
      MissingNone(list[..n]);
      KnownIfNoneMissing(list[..n], data[..n]);
    } else {
      hide Missing, Known;
      m := OneMissing(list[..n], data[..n]);
      assert data[..n][..m] == data[..m] && data[m + 1..] == data[..n][m + 1..] + [data[n]];
    }
  }

  lemma LastProtected(list: seq<ProtectedPacket>)
    requires list != []
    ensures var n := |list| - 1;
      && Known(list) == (if list[n].pkt.Some? then Known(list[..n]) + [list[n].pkt.value] else Known(list[..n]))
      && Missing(list) == (if list[n].pkt.None? then Missing(list[..n]) + [list[n].seqNum] else Missing(list[..n]))
  {
  }

  // The packet that an authentic FEC packet yields is the one that was sent.
  lemma RecoverIsSent(b: int, sent: Stream, ssrc: SsrcBytes, f: FecPacket)
    requires GoodStream(sent, ssrc) && FecPacketAuthentic(b, sent, ssrc, f) && |Missing(f.protectedList)| == 1
    ensures WasSent(b, sent, Recover(f).seqNum, Recover(f).pkt)
  {
    hide CoveredSeqs, Protects, Missing, Known, Recovered, Version2, Carries, Ssrc;
    var keys := CoveredSeqs(f.pkt);
    var data := SentFor(b, sent, keys);
    assert forall j :: 0 <= j < |keys| ==> keys[j] == f.protectedList[j].seqNum;
    var m := OneMissing(f.protectedList, data);
    assert data == data[..m] + [data[m]] + data[m + 1..];
    var u := Unwrap(b, keys[m]);
    assert u in sent && data[m] == sent[u] && u % WRAP == keys[m];
    RecoveryInvertsGeneration(f.pkt, data[..m], data[m], keys[m], data[m + 1..]);
  }

  lemma CoverAuthentic(b: int, sent: Stream, ssrc: SsrcBytes, fecs: seq<FecPacket>, r: RecoveredPacket)
    requires forall i :: 0 <= i < |fecs| ==> FecPacketAuthentic(b, sent, ssrc, fecs[i])
    requires WasSent(b, sent, r.seqNum, r.pkt)
    ensures forall i :: 0 <= i < |fecs| ==> FecPacketAuthentic(b, sent, ssrc, CoverAll(fecs, r)[i])
  {
    hide CoveredSeqs, FecSent;
    forall i | 0 <= i < |fecs|
      ensures FecPacketAuthentic(b, sent, ssrc, CoverAll(fecs, r)[i])
    {
      assert ProtectedKeys(CoverList(fecs[i].protectedList, r)) == ProtectedKeys(fecs[i].protectedList);
    }
  }

  lemma PushAuthentic(b: int, sent: Stream, list: seq<RecoveredPacket>, r: RecoveredPacket)
    requires RecoveredAuthentic(b, sent, list) && WasSent(b, sent, r.seqNum, r.pkt)
    ensures RecoveredAuthentic(b, sent, PushSorted(list, r)) && RecoveredAuthentic(b, sent, Newest(PushSorted(list, r)))
  {
    hide WasSent, InsertAt;
  }

  lemma NewFecAuthentic(b: int, sent: Stream, ssrc: SsrcBytes, seqNum: u16, fec: Packet, list: seq<RecoveredPacket>)
    requires RecoveredAuthentic(b, sent, list) && FecSent(b, sent, fec)
    ensures FecPacketAuthentic(b, sent, ssrc, NewFec(seqNum, ssrc, fec, list))
  {
    hide CoveredSeqs, FecSent, Lookup;
    var f := NewFec(seqNum, ssrc, fec, list);
    assert ProtectedKeys(f.protectedList) == CoveredSeqs(fec);
    forall j | 0 <= j < |f.protectedList| && f.protectedList[j].pkt.Some?
      ensures WasSent(b, sent, f.protectedList[j].seqNum, f.protectedList[j].pkt.value)
    {
      var i :| 0 <= i < |list| && list[i].seqNum == f.protectedList[j].seqNum && list[i].pkt == f.protectedList[j].pkt.value;
    }
  }

  lemma InsertOneAuthentic(b: int, sent: Stream, ssrc: SsrcBytes, st: State, rx: ReceivedPacket)
    requires Authentic(b, sent, ssrc, st) && ReceivedAuthentic(b, sent, ssrc, rx)
    ensures Authentic(b, sent, ssrc, InsertOne(st, rx))
  {
    hide CoveredSeqs, FecPacketAuthentic, WasSent, FecSent, RecoveredAuthentic, Keys, FecKeys, InsertFec;
    var s := DropStaleFec(st, rx.seqNum);
    match rx
    case ReceivedMedia(n, media) =>
      var r := RecoveredPacket(n, false, true, media);
      CoverAuthentic(b, sent, ssrc, s.fecs, r);
      PushAuthentic(b, sent, s.recovered, r);
    case ReceivedFec(n, ssrc', fec) =>
      InsertFecAuthentic(b, sent, ssrc, s, n, fec);
  }

  lemma InsertFecAuthentic(b: int, sent: Stream, ssrc: SsrcBytes, st: State, n: u16, fec: Packet)
    requires Authentic(b, sent, ssrc, st) && FecSent(b, sent, fec)
    ensures Authentic(b, sent, ssrc, InsertFec(st, n, ssrc, fec))
  {
    hide CoveredSeqs, FecPacketAuthentic, FecSent, RecoveredAuthentic, InsertAt, FecKeys, NewFec;
    var f := NewFec(n, ssrc, fec, st.recovered);
    NewFecAuthentic(b, sent, ssrc, n, fec, st.recovered);
    var fecs := PushFecSorted(st.fecs, f);
    assert forall i :: 0 <= i < |fecs| ==> fecs[i] == f || fecs[i] in st.fecs;
  }

  lemma {:induction false} InsertAllAuthentic(b: int, sent: Stream, ssrc: SsrcBytes, st: State, batch: seq<ReceivedPacket>)
    requires Authentic(b, sent, ssrc, st)
    requires forall i :: 0 <= i < |batch| ==> ReceivedAuthentic(b, sent, ssrc, batch[i])
    ensures Authentic(b, sent, ssrc, InsertAll(st, batch))
  {
    hide Authentic, ReceivedAuthentic;
    if batch != [] {
      InsertAllAuthentic(b, sent, ssrc, st, batch[..|batch| - 1]);
      InsertOneAuthentic(b, sent, ssrc, InsertAll(st, batch[..|batch| - 1]), batch[|batch| - 1]);
    }
  }

  lemma {:induction false} AttemptAuthentic(b: int, sent: Stream, ssrc: SsrcBytes, st: State, i: nat)
    requires GoodStream(sent, ssrc) && Authentic(b, sent, ssrc, st) && i <= |st.fecs|
    ensures Authentic(b, sent, ssrc, Attempt(st, i))
    decreases |st.fecs|, |st.fecs| - i
  {
    hide GoodStream, FecPacketAuthentic, WasSent, RecoveredAuthentic, Missing, Recover;
    if i == |st.fecs| {
    } else if |Missing(st.fecs[i].protectedList)| == 1 {
      var r := Recover(st.fecs[i]);
      RecoverIsSent(b, sent, ssrc, st.fecs[i]);
      CoverAuthentic(b, sent, ssrc, st.fecs, r);
      PushAuthentic(b, sent, st.recovered, r);
      AttemptAuthentic(b, sent, ssrc, RecoverAt(st, i), 0);
    } else if |Missing(st.fecs[i].protectedList)| == 0 {
      AttemptAuthentic(b, sent, ssrc, st.(fecs := Without(st.fecs, i)), i);
    } else {
      AttemptAuthentic(b, sent, ssrc, st, i + 1);
    }
  }

  lemma ResetAuthentic(b: int, sent: Stream, ssrc: SsrcBytes, st: State, batch: seq<ReceivedPacket>)
    requires Authentic(b, sent, ssrc, st) && batch != []
    ensures Authentic(b, sent, ssrc, ResetIfFar(st, batch))
  {
    hide FecPacketAuthentic;
  }

  lemma NewestAuthentic(b: int, sent: Stream, ssrc: SsrcBytes, st: State)
    requires Authentic(b, sent, ssrc, st)
    ensures Authentic(b, sent, ssrc, st.(recovered := Newest(st.recovered)))
  {
    hide FecPacketAuthentic, WasSent;
  }

  lemma DecodeAuthentic(b: int, sent: Stream, ssrc: SsrcBytes, st: State, batch: seq<ReceivedPacket>)
    requires GoodStream(sent, ssrc) && Authentic(b, sent, ssrc, st) && batch != []
    requires forall i :: 0 <= i < |batch| ==> ReceivedAuthentic(b, sent, ssrc, batch[i])
    ensures Authentic(b, sent, ssrc, Decode(st, batch))
  {
    hide GoodStream, Authentic, ReceivedAuthentic;
    var st0 := ResetIfFar(st, batch);
    ResetAuthentic(b, sent, ssrc, st, batch);
    InsertAllAuthentic(b, sent, ssrc, st0, batch);
    NewestAuthentic(b, sent, ssrc, InsertAll(st0, batch));
    AttemptAuthentic(b, sent, ssrc, InsertPackets(st0, batch), 0);
  }

  // ---- Whole runs ---------------------------------------------------------------

  // One call of DecodeFEC, with the start of the half window that is live then.
  datatype Call = Call(base: int, batch: seq<ReceivedPacket>)

  // The lists that a call finds stand for the same unwrapped numbers in its window
  // as in the window of the call before.
  ghost predicate SameNumbers(b: int, b': int, keys: seq<u16>) {
    forall x :: x in keys ==> Live(b', x) && Unwrap(b', x) == Unwrap(b, x)
  }

  ghost predicate StaysLive(b: int, b': int, st: State) {
    && SameNumbers(b, b', Keys(st.recovered)) && SameNumbers(b, b', FecKeys(st.fecs))
    && forall i :: 0 <= i < |st.fecs| ==> SameNumbers(b, b', CoveredSeqs(st.fecs[i].pkt))
  }

  // A run on any mix of sent media and FEC packets, lost, duplicated or reordered, as
  // long as everything live at a call lies in one half window of sequence numbers.
  ghost predicate LegalRun(b: int, sent: Stream, ssrc: SsrcBytes, st: State, calls: seq<Call>)
    decreases |calls|
  {
    calls == [] ||
      var c := calls[0];
      && c.batch != [] && StaysLive(b, c.base, st)
      && (forall i :: 0 <= i < |c.batch| ==> ReceivedLive(c.base, c.batch[i]) && ReceivedAuthentic(c.base, sent, ssrc, c.batch[i]))
      && LegalRun(c.base, sent, ssrc, Decode(st, c.batch), calls[1..])
  }

  function Run(st: State, calls: seq<Call>): State
    requires forall i :: 0 <= i < |calls| ==> calls[i].batch != []
    decreases |calls|
  {
    if calls == [] then st else Run(Decode(st, calls[0].batch), calls[1..])
  }

  ghost predicate Invariant(b: int, sent: Stream, ssrc: SsrcBytes, st: State) {
    Ordered(b, st) && |st.recovered| <= MAX_MEDIA_PACKETS && Authentic(b, sent, ssrc, st)
  }

  lemma SentAlike(b: int, b': int, sent: Stream, f: Packet)
    requires FecSent(b, sent, f) && SameNumbers(b, b', CoveredSeqs(f))
    ensures FecSent(b', sent, f)
  {
    hide CoveredSeqs, Protects, Unwrap;
    var keys := CoveredSeqs(f);
    assert forall i :: 0 <= i < |keys| ==> keys[i] in keys && Unwrap(b', keys[i]) == Unwrap(b, keys[i]);
    assert SentFor(b', sent, keys) == SentFor(b, sent, keys);
  }

  lemma MoveWindow(b: int, b': int, sent: Stream, ssrc: SsrcBytes, st: State)
    requires Invariant(b, sent, ssrc, st) && StaysLive(b, b', st)
    ensures Invariant(b', sent, ssrc, st)
  {
    hide CoveredSeqs, Unwrap, Live, Linked, FecSent;
    assert forall i :: 0 <= i < |st.recovered| ==> Keys(st.recovered)[i] in Keys(st.recovered);
    forall i | 0 <= i < |st.fecs|
      ensures FecWellFormed(b', st.fecs[i]) && FecPacketAuthentic(b', sent, ssrc, st.fecs[i])
    {
      var f := st.fecs[i];
      assert FecWellFormed(b, f) && FecPacketAuthentic(b, sent, ssrc, f);
      SentAlike(b, b', sent, f.pkt);
      assert forall j :: 0 <= j < |f.protectedList| ==> f.protectedList[j].seqNum == CoveredSeqs(f.pkt)[j] && CoveredSeqs(f.pkt)[j] in CoveredSeqs(f.pkt);
    }
  }

  lemma LegalBatches(b: int, sent: Stream, ssrc: SsrcBytes, st: State, calls: seq<Call>)
    requires LegalRun(b, sent, ssrc, st, calls)
    ensures forall i :: 0 <= i < |calls| ==> calls[i].batch != []
    decreases |calls|
  {
    if calls != [] {
      LegalBatches(calls[0].base, sent, ssrc, Decode(st, calls[0].batch), calls[1..]);
    }
  }

  // Every state of every legal run keeps the invariant, and so everything in the
  // recovered list is a sent packet, whole, under its own number.
  lemma {:induction false} RunKeepsInvariant(b: int, sent: Stream, ssrc: SsrcBytes, st: State, calls: seq<Call>)
    requires GoodStream(sent, ssrc) && Invariant(b, sent, ssrc, st) && LegalRun(b, sent, ssrc, st, calls)
    ensures forall i :: 0 <= i < |calls| ==> calls[i].batch != []
    ensures Invariant(if calls == [] then b else calls[|calls| - 1].base, sent, ssrc, Run(st, calls))
    decreases |calls|
  {
    LegalBatches(b, sent, ssrc, st, calls);
    if calls != [] {
      var c, next := calls[0], Decode(st, calls[0].batch);
      LegalFirst(b, sent, ssrc, st, calls);
      assert Run(st, calls) == Run(next, calls[1..]);
      hide GoodStream, Ordered, Authentic, StaysLive, ReceivedLive, ReceivedAuthentic, Decode, Run, LegalRun;
      MoveWindow(b, c.base, sent, ssrc, st);
      DecodeOrdered(c.base, st, c.batch);
      DecodeAuthentic(c.base, sent, ssrc, st, c.batch);
      RunKeepsInvariant(c.base, sent, ssrc, next, calls[1..]);
    }
  }

  lemma LegalFirst(b: int, sent: Stream, ssrc: SsrcBytes, st: State, calls: seq<Call>)
    requires LegalRun(b, sent, ssrc, st, calls) && calls != []
    ensures var c := calls[0];
      && c.batch != [] && StaysLive(b, c.base, st)
      && (forall i :: 0 <= i < |c.batch| ==> ReceivedLive(c.base, c.batch[i]) && ReceivedAuthentic(c.base, sent, ssrc, c.batch[i]))
      && LegalRun(c.base, sent, ssrc, Decode(st, c.batch), calls[1..])
  {
    hide StaysLive, ReceivedLive, ReceivedAuthentic, Decode;
  }

  lemma RunRecoversWhatWasSent(b: int, sent: Stream, ssrc: SsrcBytes, calls: seq<Call>)
    requires GoodStream(sent, ssrc) && LegalRun(b, sent, ssrc, State([], []), calls)
    ensures forall i :: 0 <= i < |calls| ==> calls[i].batch != []
    ensures var list := Run(State([], []), calls).recovered;
      && |list| <= MAX_MEDIA_PACKETS && Ascending(Keys(list))
      && forall r :: r in list ==> exists u :: u in sent && u % WRAP == r.seqNum && sent[u] == r.pkt
  {
    RunKeepsInvariant(b, sent, ssrc, State([], []), calls);
    hide GoodStream, LegalRun, Unwrap, FecPacketAuthentic, FecWellFormed, IsNewer, Run;
    var list := Run(State([], []), calls).recovered;
    var b' := if calls == [] then b else calls[|calls| - 1].base;
    forall r | r in list
      ensures exists u :: u in sent && u % WRAP == r.seqNum && sent[u] == r.pkt
    {
      var i :| 0 <= i < |list| && list[i] == r;
      assert WasSent(b', sent, r.seqNum, r.pkt) && Unwrap(b', r.seqNum) % WRAP == r.seqNum;
    }
  }
}
