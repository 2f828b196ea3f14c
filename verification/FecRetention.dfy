// What the decoder keeps and forgets in a call, by plain tests on its state before the
// call, and what that means for repair in runs of any length.
module FecRetention {
  import opened Bytes
  import opened SeqNum
  import opened ParityCode
  import opened FecEncoder
  import opened FecGenerator
  import opened FecDecoder
  import opened FecInvariant
  import opened FecAuthentic
  import opened Peeling
  import opened FecOutcome
  import opened FecReceiver
  import opened FecDelivery
  import opened FecRepair
  import FecMachine

  // ---- The recovered list ---------------------------------------------------------------------

  // The list is not full, or the first new number is within 48 of the newest listed one,
  // by the plain difference.
  predicate KeepsList(st: State, batch: seq<ReceivedPacket>)
    requires batch != []
  {
    |st.recovered| < 48 || -48 <= batch[0].seqNum - st.recovered[|st.recovered| - 1].seqNum <= 48
  }

  // Then whatever is listed stays listed, unless the list becomes full of newer packets.
  lemma ListedStays(b: int, st: State, batch: seq<ReceivedPacket>)
    requires batch != [] && Callable(b, st, batch) && KeepsList(st, batch)
    ensures forall s :: s in Keys(st.recovered) ==> Settled(b, Keys(Process(st, batch).0.recovered), Unwrap(b, s))
  {
    assert ResetIfFar(st, batch) == st;
    forall s | s in Keys(st.recovered)
      ensures Settled(b, Keys(Process(st, batch).0.recovered), Unwrap(b, s))
    {
      assert Unwrap(b, s) in Numbers(b, Keys(st.recovered));
      hide Callable, Process, ResetIfFar, Numbers;
      SettledCall(b, st, batch, Unwrap(b, s));
    }
  }

  // Otherwise everything is forgotten: what is listed afterwards is a media packet of the
  // batch, or has been recovered in the call from FEC packets of the batch.
  lemma FarListIsForgotten(b: int, st: State, batch: seq<ReceivedPacket>)
    requires batch != [] && Callable(b, st, batch) && !KeepsList(st, batch)
    ensures forall s :: s in Keys(Process(st, batch).0.recovered) ==> HasMedia(batch, s) || s in NewsOf(st, batch)
    ensures forall f :: f in Inserted(st, batch).fecs ==> FromBatch(f, batch)
  {
    assert ResetIfFar(st, batch) == State([], []);
    forall s | s in Keys(Process(st, batch).0.recovered)
      ensures HasMedia(batch, s) || s in NewsOf(st, batch)
    {
      ListedOrNew(b, st, batch, s);
    }
    NoFecBefore(batch);
  }

  lemma ListedOrNew(b: int, st: State, batch: seq<ReceivedPacket>, s: u16)
    requires batch != [] && Callable(b, st, batch) && s in Keys(Process(st, batch).0.recovered)
    ensures s in Keys(ResetIfFar(st, batch).recovered) || HasMedia(batch, s) || s in NewsOf(st, batch)
  {
    ProcessKeys(st, batch);
    var list, all := Decode(st, batch).recovered, InsertAll(ResetIfFar(st, batch), batch);
    hide Process, HasMedia;
    AttemptMembers(Inserted(st, batch), 0);
    InsertAllKeys(ResetIfFar(st, batch), batch, s);
    KeysMember(list, s);
    KeysMember(Inserted(st, batch).recovered, s);
    KeysMember(all.recovered, s);
    hide Decode, Callable, News, InsertAll;
  }

  ghost predicate FromBatch(f: FecPacket, batch: seq<ReceivedPacket>) {
    exists rx :: rx in batch && rx.ReceivedFec? && rx.seqNum == f.seqNum && rx.fec == f.pkt
  }

  lemma {:induction false} NoFecBefore(batch: seq<ReceivedPacket>)
    ensures forall f :: f in InsertAll(State([], []), batch).fecs ==> FromBatch(f, batch)
  {
    if batch != [] {
      var init, rx := batch[..|batch| - 1], batch[|batch| - 1];
      NoFecBefore(init);
      OneMoreFromBatch(InsertAll(State([], []), init), init, rx);
      assert batch == init + [rx];
    }
  }

  lemma OneMoreFromBatch(st: State, init: seq<ReceivedPacket>, rx: ReceivedPacket)
    requires forall f :: f in st.fecs ==> FromBatch(f, init)
    ensures forall f :: f in InsertOne(st, rx).fecs ==> FromBatch(f, init + [rx])
  {
    var s, batch := DropStaleFec(st, rx.seqNum), init + [rx];
    forall f | f in s.fecs
      ensures FromBatch(f, batch)
    {
      assert f in st.fecs;
      var rx' :| rx' in init && rx'.ReceivedFec? && rx'.seqNum == f.seqNum && rx'.fec == f.pkt;
      assert rx' in batch;
    }
    assert rx in batch by { assert batch[|init|] == rx; }
    match rx
    case ReceivedMedia(n, media) =>
      hide PushSorted, FromBatch, DropStaleFec;
      CoveredFromBatch(s.fecs, RecoveredPacket(n, false, true, media), batch);
    case ReceivedFec(n, ssrc, fec) =>
      hide DropStaleFec, PushFecSorted, CoveredSeqs, Lookup;
      var f := NewFec(n, ssrc, fec, s.recovered);
      assert FromBatch(f, batch);
      PushedFecs(s.fecs, f);
      hide FromBatch, NewFec;
      assert forall g :: g in InsertFec(s, n, ssrc, fec).fecs ==> g in PushFecSorted(s.fecs, f) || g in s.fecs;
  }

  lemma CoveredFromBatch(fecs: seq<FecPacket>, r: RecoveredPacket, batch: seq<ReceivedPacket>)
    requires forall f :: f in fecs ==> FromBatch(f, batch)
    ensures forall f :: f in CoverAll(fecs, r) ==> FromBatch(f, batch)
  {
    forall f | f in CoverAll(fecs, r)
      ensures FromBatch(f, batch)
    {
      var i :| 0 <= i < |fecs| && CoverAll(fecs, r)[i] == f;
      assert fecs[i] in fecs && FromBatch(fecs[i], batch);
      var rx :| rx in batch && rx.ReceivedFec? && rx.seqNum == fecs[i].seqNum && rx.fec == fecs[i].pkt;
    }
  }

  function BaseAfter(b: int, calls: seq<Call>, k: nat): int
    requires k <= |calls|
  {
    if k == 0 then b else calls[k - 1].base
  }

  // Over any run, a number that is listed stays so, unless the list becomes full of newer
  // ones, for as long as no call finds the list full and far away.
  lemma {:induction false} StaysWhileNear(b: int, sent: Stream, ssrc: SsrcBytes, st: State, calls: seq<Call>, k: nat, u: int)
    requires GoodStream(sent, ssrc) && Invariant(b, sent, ssrc, st) && AllReturned(st.recovered)
    requires LegalReceiverRun(b, sent, ssrc, st, calls) && k <= |calls| && Settled(b, Keys(st.recovered), u)
    requires AllNear(st, calls, k)
    ensures Settled(BaseAfter(b, calls, k), Keys(StateBefore(st, calls, k).recovered), u)
    decreases k
  {
    hide *;
    if k == 0 {
      NoCallYet(b, st, calls);
    } else {
      var c, next := calls[0], Process(st, calls[0].batch).0;
      NearFirst(b, st, calls, k);
      FirstCall(b, sent, ssrc, st, calls);
      MoveWindow(b, c.base, sent, ssrc, st);
      SettledMoves(b, c.base, st, u);
      CallIsCallable(c.base, sent, ssrc, st, c.batch);
      SettledCall(c.base, st, c.batch, u);
      ProcessKeeps(c.base, sent, ssrc, st, c.batch);
      StaysWhileNear(c.base, sent, ssrc, next, calls[1..], k - 1, u);
    }
  }

  lemma NoCallYet(b: int, st: State, calls: seq<Call>)
    ensures BaseAfter(b, calls, 0) == b && StateBefore(st, calls, 0) == st
  {
  }

  // None of the first k calls finds the list full and far away.
  ghost predicate AllNear(st: State, calls: seq<Call>, k: nat)
    requires k <= |calls|
  {
    forall i :: 0 <= i < k && calls[i].batch != [] ==> KeepsList(StateBefore(st, calls, i), calls[i].batch)
  }

  lemma NearFirst(b: int, st: State, calls: seq<Call>, k: nat)
    requires 0 < k <= |calls| && AllNear(st, calls, k)
    ensures var next := Process(st, calls[0].batch).0;
      && !Resets(st, calls[0].batch) && AllNear(next, calls[1..], k - 1)
      && StateBefore(st, calls, k) == StateBefore(next, calls[1..], k - 1)
      && BaseAfter(b, calls, k) == BaseAfter(calls[0].base, calls[1..], k - 1)
  {
    var next := Process(st, calls[0].batch).0;
    assert StateBefore(st, calls, 0) == st;
    assert calls[0].batch != [] ==> KeepsList(st, calls[0].batch);
    hide Process;
    forall i | 0 <= i < k - 1 && calls[1..][i].batch != []
      ensures KeepsList(StateBefore(next, calls[1..], i), calls[1..][i].batch)
    {
      assert StateBefore(st, calls, i + 1) == StateBefore(next, calls[1..], i) && calls[i + 1] == calls[1..][i];
    }
  }

  // ---- Repair in runs of any length -----------------------------------------------------------

  // An FEC packet knows its listed members, so it misses at most the one that is neither
  // listed nor in the batch.
  lemma MissesOnly(b: int, st: State, batch: seq<ReceivedPacket>, f: FecPacket, s: u16)
    requires batch != [] && Callable(b, st, batch) && KeepsList(st, batch) && f in Inserted(st, batch).fecs
    requires forall y :: y in CoveredSeqs(f.pkt) && y != s ==> y in Keys(st.recovered) || HasMedia(batch, y)
    ensures MissSet(f) <= {s}
  {
    var all := InsertAll(st, batch);
    assert ResetIfFar(st, batch) == st;
    InsertAllOrdered(b, st, batch);
    hide InsertAll, CoveredSeqs, Live, Sorted, HasMedia, ResetIfFar, Missing;
    assert f in all.fecs;
    var i :| 0 <= i < |all.fecs| && all.fecs[i] == f;
    assert FecWellFormed(b, f) && Linked(f, Keys(all.recovered));
    forall y | y in MissSet(f)
      ensures y == s
    {
      MissingIsCovered(f.protectedList, y);
      var j :| 0 <= j < |f.protectedList| && f.protectedList[j].seqNum == y && f.protectedList[j].pkt.None?;
      assert ProtectedKeys(f.protectedList)[j] == y;
      InsertAllKeys(st, batch, y);
    }
  }

  lemma NewsIsLeast(b: int, st: State, batch: seq<ReceivedPacket>)
    requires batch != [] && Callable(b, st, batch)
    ensures Least(Inserted(st, batch).fecs, NewsOf(st, batch))
  {
    FecMachine.InsertedOrdered(b, st, batch);
    hide FecWellFormed, Linked, Sorted, Closed, NewestOf, Numbers, News, ReceivedLive, InsertAll, ResetIfFar;
    AttemptRecoversLeastSet(b, Inserted(st, batch));
  }

  // The missing one is listed after the call, or the list is full of newer packets; and if
  // it is listed, it goes up in this call.
  lemma OneMissingIsRepaired(b: int, st: State, batch: seq<ReceivedPacket>, f: FecPacket, s: u16)
    requires batch != [] && Callable(b, st, batch) && KeepsList(st, batch) && f in Inserted(st, batch).fecs
    requires s in MissSet(f) && forall y :: y in CoveredSeqs(f.pkt) && y != s ==> y in Keys(st.recovered) || HasMedia(batch, y)
    ensures Settled(b, Keys(Process(st, batch).0.recovered), Unwrap(b, s))
    ensures s in Keys(Process(st, batch).0.recovered) ==> s in ListNumbers(st, batch)
  {
    MissesOnly(b, st, batch, f, s);
    assert MissSet(f) == {s};
    NewsIsLeast(b, st, batch);
    assert s in NewsOf(st, batch);
    ProcessKeys(st, batch);
    hide *;
    OneMissingGoesUp(b, st, batch, NewsOf(st, batch), f, s);
    ListNumbersAre(b, st, batch, s);
  }

  // An FEC packet on its own, when all but one of its members are listed.
  lemma FecRepairsListed(b: int, st: State, n: u16, ssrc: SsrcBytes, fec: Packet, s: u16)
    requires var batch := [ReceivedFec(n, ssrc, fec)]; Callable(b, st, batch) && KeepsList(st, batch)
    requires n !in FecKeys(st.fecs) && |st.fecs| < 48
    requires s in CoveredSeqs(fec) && s !in Keys(st.recovered) && forall y :: y in CoveredSeqs(fec) && y != s ==> y in Keys(st.recovered)
    ensures var batch := [ReceivedFec(n, ssrc, fec)];
      && Settled(b, Keys(Process(st, batch).0.recovered), Unwrap(b, s))
      && (s in Keys(Process(st, batch).0.recovered) ==> s in ListNumbers(st, batch))
  {
    var batch := [ReceivedFec(n, ssrc, fec)];
    var f := NewFec(n, ssrc, fec, st.recovered);
    FecIsInserted(st, n, ssrc, fec);
    UnlistedIsMissed(st, n, ssrc, fec, s);
    hide *;
    OneMissingIsRepaired(b, st, batch, f, s);
  }

  lemma FecIsInserted(st: State, n: u16, ssrc: SsrcBytes, fec: Packet)
    requires KeepsList(st, [ReceivedFec(n, ssrc, fec)]) && n !in FecKeys(st.fecs) && |st.fecs| < 48 && CoveredSeqs(fec) != []
    ensures NewFec(n, ssrc, fec, st.recovered) in Inserted(st, [ReceivedFec(n, ssrc, fec)]).fecs
    ensures NewFec(n, ssrc, fec, st.recovered).pkt == fec
  {
    hide CoveredSeqs, InsertAt, Lookup;
    var batch, s := [ReceivedFec(n, ssrc, fec)], DropStaleFec(st, n);
    assert batch[..0] == [] && ResetIfFar(st, batch) == st;
    assert InsertAll(st, batch) == InsertOne(st, batch[0]);
    assert n !in FecKeys(s.fecs) by { FewerFecKeys(st, n); }
    var fecs, f := PushFecSorted(s.fecs, NewFec(n, ssrc, fec, st.recovered)), NewFec(n, ssrc, fec, st.recovered);
    var i := InsertAt(FecKeys(s.fecs), f.seqNum);
    assert fecs[i] == f;
  }

  lemma FewerFecKeys(st: State, n: u16)
    ensures forall x :: x in FecKeys(DropStaleFec(st, n).fecs) ==> x in FecKeys(st.fecs)
  {
    if st.fecs != [] {
      assert FecKeys(st.fecs[1..]) == FecKeys(st.fecs)[1..];
    }
  }

  lemma UnlistedIsMissed(st: State, n: u16, ssrc: SsrcBytes, fec: Packet, s: u16)
    requires s in CoveredSeqs(fec) && s !in Keys(st.recovered)
    ensures s in MissSet(NewFec(n, ssrc, fec, st.recovered))
  {
    hide CoveredSeqs, Missing;
    var f := NewFec(n, ssrc, fec, st.recovered);
    var j :| 0 <= j < |CoveredSeqs(fec)| && CoveredSeqs(fec)[j] == s;
    MissingMembers(f.protectedList, j);
  }

  // In a run of any length: when an FEC packet of the encoder arrives on its own and all
  // its media packets but one are listed, the missing one is listed afterwards and has
  // been handed up as it was sent, or the list is full of newer packets.
  lemma LossIsRepairedAtAnyTime(b: int, sent: Stream, ssrc: SsrcBytes, st: State, calls: seq<Call>, k: nat,
                                n: u16, fec: Packet, media: seq<Packet>, row: seq<byte>, s: u16)
    requires GoodStream(sent, ssrc) && Invariant(b, sent, ssrc, st) && AllReturned(st.recovered)
    requires LegalReceiverRun(b, sent, ssrc, st, calls) && k < |calls| && calls[k].batch == [ReceivedFec(n, ssrc, fec)]
    requires AllMediaSized(media) && FecFor(fec, media, row)
    requires var before := StateBefore(st, calls, k);
      && KeepsList(before, calls[k].batch) && n !in FecKeys(before.fecs) && |before.fecs| < 48
      && s in SeqNums(Protected(media, row)) && s !in Keys(before.recovered)
      && forall y :: y in SeqNums(Protected(media, row)) && y != s ==> y in Keys(before.recovered)
    ensures var after := StateBefore(st, calls, k + 1);
      && Settled(calls[k].base, Keys(after.recovered), Unwrap(calls[k].base, s))
      && (s in Keys(after.recovered) ==> HandedUpAs(sent, HandedUp(st, calls), s))
  {
    assert CoveredSeqs(fec) == SeqNums(Protected(media, row));
    var before := StateBefore(st, calls, k);
    Reached(b, sent, ssrc, st, calls, k);
    NextState(st, calls, k);
    assert s in ListNumbers(before, calls[k].batch) ==> WentUp(st, calls, s);
    hide *;
    FecRepairsListed(calls[k].base, before, n, ssrc, fec, s);
    if s in ListNumbers(before, calls[k].batch) {
      WhatWentUpWasSent(b, sent, ssrc, st, calls, s);
    }
  }

  lemma {:induction false} NextState(st: State, calls: seq<Call>, k: nat)
    requires k < |calls|
    ensures StateBefore(st, calls, k + 1) == Process(StateBefore(st, calls, k), calls[k].batch).0
    decreases k
  {
    hide Process;
    if k > 0 {
      NextState(Process(st, calls[0].batch).0, calls[1..], k - 1);
    } else {
      assert StateBefore(Process(st, calls[0].batch).0, calls[1..], 0) == Process(st, calls[0].batch).0;
    }
  }

  // ---- The FEC list ----------------------------------------------------------------------------

  // The age test takes out the oldest FEC packet, and only that, exactly if it is more
  // than 0x3fff away or the numbers wrap in between.
  lemma StaleOldestGoes(b: int, st: State, n: u16, u: int)
    requires Ordered(b, st) && Live(b, n) && u in Numbers(b, FecKeys(st.fecs))
    ensures DropStaleFec(st, n).recovered == st.recovered
    ensures u !in Numbers(b, FecKeys(DropStaleFec(st, n).fecs)) <==>
      && (forall v :: v in Numbers(b, FecKeys(st.fecs)) ==> u <= v)
      && (Abs(Unwrap(b, n) - u) > 0x3fff || Unwrap(b, n) / WRAP != u / WRAP)
  {
    var keys := FecKeys(st.fecs);
    assert st.fecs != [] ==> FecKeys(st.fecs[1..]) == keys[1..];
    assert Sorted(b, keys) && keys != [];
    hide Ordered, Sorted, Live, Unwrap, Numbers;
    StaleKeys(b, keys, n, u);
  }

  lemma StaleKeys(b: int, keys: seq<u16>, n: u16, u: int)
    requires Sorted(b, keys) && keys != [] && Live(b, n) && u in Numbers(b, keys)
    ensures u !in Numbers(b, if Abs(n - keys[0]) > 0x3fff then keys[1..] else keys) <==>
      && (forall v :: v in Numbers(b, keys) ==> u <= v)
      && (Abs(Unwrap(b, n) - u) > 0x3fff || Unwrap(b, n) / WRAP != u / WRAP)
  {
    assert keys[0] in keys && Unwrap(b, keys[0]) in Numbers(b, keys);
    StaleExactly(b, n, keys[0]);
    RestNumbers(b, keys);
    LeastNumber(b, keys);
    hide Sorted, Live, Unwrap, Numbers, Abs;
  }

  lemma LeastNumber(b: int, keys: seq<u16>)
    requires Sorted(b, keys) && keys != []
    ensures forall v :: v in Numbers(b, keys) ==> Unwrap(b, keys[0]) <= v
  {
    hide Unwrap, Live;
    forall v | v in Numbers(b, keys)
      ensures Unwrap(b, keys[0]) <= v
    {
      var y :| y in keys && Unwrap(b, y) == v;
      if y != keys[0] {
        assert keys == [keys[0]] + keys[1..];
        OldestFirst(b, keys, y);
      }
    }
  }

  // A new FEC packet joins the list, which keeps the newest 48.
  lemma FecListKeepsNewest(b: int, st: State, n: u16, ssrc: SsrcBytes, fec: Packet)
    requires Ordered(b, st) && Live(b, n)
    ensures InsertFec(st, n, ssrc, fec).recovered == st.recovered
    ensures NewestOf(b, FecKeys(InsertFec(st, n, ssrc, fec).fecs),
                     Numbers(b, FecKeys(st.fecs)) + (if CoveredSeqs(fec) == [] then {} else {Unwrap(b, n)}))
  {
    hide FecWellFormed, Linked, CoveredSeqs;
    var keys := FecKeys(st.fecs);
    FecsAreNewest(b, keys);
    if n in keys {
      assert Unwrap(b, n) in Numbers(b, keys);
      assert Numbers(b, keys) + {Unwrap(b, n)} == Numbers(b, keys);
    } else if CoveredSeqs(fec) != [] {
      var f := NewFec(n, ssrc, fec, st.recovered);
      var fecs := PushFecSorted(st.fecs, f);
      PushFecSortedKeys(st.fecs, f);
      assert |fecs| > 48 ==> FecKeys(fecs[1..]) == FecKeys(fecs)[1..];
      hide InsertAt, IsNewer, Unwrap, PushFecSorted, NewFec, NewestOf, Sorted;
      PushKeepsNewest(b, keys, Numbers(b, keys), n, FecKeys(fecs), FecKeys(InsertFec(st, n, ssrc, fec).fecs));
    }
  }

  lemma FecsAreNewest(b: int, keys: seq<u16>)
    requires Sorted(b, keys) && |keys| <= 48
    ensures NewestOf(b, keys, Numbers(b, keys))
  {
    hide Unwrap, Live, IsNewer;
  }
}
