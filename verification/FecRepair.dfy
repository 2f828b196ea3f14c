// What the FEC receiver recovers over a whole run: never more than the least set that
// contains the received media packets and is closed under "a received FEC packet with one
// missing member yields it", and in a short run exactly that set, in whatever order and in
// whatever batches the packets arrive.
module FecRepair {
  import opened Bytes
  import opened SeqNum
  import opened ParityCode
  import opened FecEncoder
  import opened FecGenerator
  import opened FecDecoder
  import opened FecInvariant
  import opened FecAuthentic
  import opened Peeling
  import opened FecOutcome
  import opened FecReceiver
  import opened FecDelivery
  import FecMachine

  // ---- The least set closed under recovery -------------------------------------------------

  // All packets of a run, in the order of arrival.
  function Received(calls: seq<Call>): seq<ReceivedPacket> {
    if calls == [] then [] else calls[0].batch + Received(calls[1..])
  }

  ghost function CoveredSet(f: Packet): set<u16> { set x | x in CoveredSeqs(f) }

  ghost function KeySet(st: State): set<u16> { set x | x in Keys(st.recovered) }

  // t has the received media packets, and every received FEC packet all of whose members
  // but one are in t has that one in t, too.
  ghost predicate ClosedFor(rxs: seq<ReceivedPacket>, t: set<u16>) {
    && (forall k :: 0 <= k < |rxs| && rxs[k].ReceivedMedia? ==> rxs[k].seqNum in t)
    && (forall k, x :: 0 <= k < |rxs| && rxs[k].ReceivedFec? && x in CoveredSet(rxs[k].fec) && CoveredSet(rxs[k].fec) <= t + {x} ==> x in t)
  }

  // ---- Nothing else is ever recovered ------------------------------------------------------

  // The FEC packet was received, and all that it knows is in t.
  ghost predicate FecWithin(f: FecPacket, rxs: seq<ReceivedPacket>, t: set<u16>) {
    && ProtectedKeys(f.protectedList) == CoveredSeqs(f.pkt)
    && (exists k :: 0 <= k < |rxs| && rxs[k].ReceivedFec? && rxs[k].fec == f.pkt)
    && (forall j :: 0 <= j < |f.protectedList| && f.protectedList[j].pkt.Some? ==> f.protectedList[j].seqNum in t)
  }

  ghost predicate Within(st: State, rxs: seq<ReceivedPacket>, t: set<u16>) {
    && (forall i :: 0 <= i < |st.recovered| ==> st.recovered[i].seqNum in t)
    && (forall i :: 0 <= i < |st.fecs| ==> FecWithin(st.fecs[i], rxs, t))
  }

  lemma CoverWithin(f: FecPacket, rxs: seq<ReceivedPacket>, t: set<u16>, r: RecoveredPacket)
    requires FecWithin(f, rxs, t) && r.seqNum in t
    ensures FecWithin(CoverFec(f, r), rxs, t)
  {
    hide CoveredSeqs;
    assert ProtectedKeys(CoverList(f.protectedList, r)) == ProtectedKeys(f.protectedList);
  }

  // One more packet in the list, and known to the FEC packets.
  lemma LearnWithin(st: State, rxs: seq<ReceivedPacket>, t: set<u16>, r: RecoveredPacket)
    requires Within(st, rxs, t) && r.seqNum in t
    ensures Within(State(CoverAll(st.fecs, r), PushSorted(st.recovered, r)), rxs, t)
  {
    hide FecWithin, InsertAt;
    forall i | 0 <= i < |st.fecs|
      ensures FecWithin(CoverAll(st.fecs, r)[i], rxs, t)
    {
      CoverWithin(st.fecs[i], rxs, t, r);
    }
  }

  lemma NewFecWithin(rx: ReceivedPacket, list: seq<RecoveredPacket>, rxs: seq<ReceivedPacket>, t: set<u16>)
    requires rx in rxs && rx.ReceivedFec? && forall i :: 0 <= i < |list| ==> list[i].seqNum in t
    ensures FecWithin(NewFec(rx.seqNum, rx.ssrc, rx.fec, list), rxs, t)
  {
    hide CoveredSeqs, Lookup;
    var f := NewFec(rx.seqNum, rx.ssrc, rx.fec, list);
    assert ProtectedKeys(f.protectedList) == CoveredSeqs(rx.fec);
  }

  lemma InsertOneWithin(st: State, rx: ReceivedPacket, rxs: seq<ReceivedPacket>, t: set<u16>)
    requires Within(st, rxs, t) && ClosedFor(rxs, t) && rx in rxs
    ensures Within(InsertOne(st, rx), rxs, t)
  {
    hide FecWithin, CoveredSeqs, PushSorted, CoverAll, InsertFec;
    var s := DropStaleFec(st, rx.seqNum);
    match rx
    case ReceivedMedia(n, media) =>
      LearnWithin(s, rxs, t, RecoveredPacket(n, false, true, media));
    case ReceivedFec(_, _, _) =>
      InsertFecWithin(s, rx, rxs, t);
  }

  lemma InsertFecWithin(st: State, rx: ReceivedPacket, rxs: seq<ReceivedPacket>, t: set<u16>)
    requires Within(st, rxs, t) && rx in rxs && rx.ReceivedFec?
    ensures Within(InsertFec(st, rx.seqNum, rx.ssrc, rx.fec), rxs, t)
  {
    hide FecWithin, CoveredSeqs, InsertAt, NewFec;
    NewFecWithin(rx, st.recovered, rxs, t);
    var f := NewFec(rx.seqNum, rx.ssrc, rx.fec, st.recovered);
    var fecs := PushFecSorted(st.fecs, f);
    assert forall i :: 0 <= i < |fecs| ==> fecs[i] == f || fecs[i] in st.fecs;
  }

  lemma {:induction false} InsertAllWithin(st: State, batch: seq<ReceivedPacket>, rxs: seq<ReceivedPacket>, t: set<u16>)
    requires Within(st, rxs, t) && ClosedFor(rxs, t) && forall rx :: rx in batch ==> rx in rxs
    ensures Within(InsertAll(st, batch), rxs, t)
  {
    hide Within, ClosedFor, InsertOne;
    if batch != [] {
      InsertAllWithin(st, batch[..|batch| - 1], rxs, t);
      InsertOneWithin(InsertAll(st, batch[..|batch| - 1]), batch[|batch| - 1], rxs, t);
    }
  }

  // What an FEC packet with one missing member yields is in t.
  lemma RecoverWithin(f: FecPacket, rxs: seq<ReceivedPacket>, t: set<u16>)
    requires FecWithin(f, rxs, t) && ClosedFor(rxs, t) && |Missing(f.protectedList)| == 1
    ensures Recover(f).seqNum in t
  {
    hide CoveredSeqs, Known, Recovered;
    var x := Missing(f.protectedList)[0];
    MissingIsCovered(f.protectedList, x);
    assert x in ProtectedKeys(f.protectedList);
    forall y | y in CoveredSet(f.pkt)
      ensures y in t + {x}
    {
      var j :| 0 <= j < |f.protectedList| && ProtectedKeys(f.protectedList)[j] == y;
      if f.protectedList[j].pkt.None? {
        MissingMembers(f.protectedList, j);
      }
    }
  }

  lemma {:induction false} AttemptWithin(st: State, i: nat, rxs: seq<ReceivedPacket>, t: set<u16>)
    requires Within(st, rxs, t) && ClosedFor(rxs, t) && i <= |st.fecs|
    ensures Within(Attempt(st, i), rxs, t)
    decreases |st.fecs|, |st.fecs| - i
  {
    hide FecWithin, ClosedFor, Missing, Recover, PushSorted, CoverAll;
    if i == |st.fecs| {
    } else if |Missing(st.fecs[i].protectedList)| == 1 {
      RecoverWithin(st.fecs[i], rxs, t);
      LearnWithin(st, rxs, t, Recover(st.fecs[i]));
      AttemptWithin(RecoverAt(st, i), 0, rxs, t);
    } else if |Missing(st.fecs[i].protectedList)| == 0 {
      AttemptWithin(st.(fecs := Without(st.fecs, i)), i, rxs, t);
    } else {
      AttemptWithin(st, i + 1, rxs, t);
    }
  }

  lemma ProcessWithin(st: State, batch: seq<ReceivedPacket>, rxs: seq<ReceivedPacket>, t: set<u16>)
    requires Within(st, rxs, t) && ClosedFor(rxs, t) && forall rx :: rx in batch ==> rx in rxs
    ensures Within(Process(st, batch).0, rxs, t)
  {
    hide FecWithin, ClosedFor, InsertAll, Attempt;
    if batch != [] {
      InsertAllWithin(ResetIfFar(st, batch), batch, rxs, t);
      AttemptWithin(InsertPackets(ResetIfFar(st, batch), batch), 0, rxs, t);
    }
  }

  lemma KeysWithin(st: State, rxs: seq<ReceivedPacket>, t: set<u16>)
    requires Within(st, rxs, t)
    ensures KeySet(st) <= t
  {
    hide FecWithin;
  }

  // Whatever is forgotten on the way, the recovered list of any run lies in every set
  // that is closed for what was received.
  lemma {:induction false} RunWithin(st: State, calls: seq<Call>, rxs: seq<ReceivedPacket>, t: set<u16>)
    requires Within(st, rxs, t) && ClosedFor(rxs, t) && forall rx :: rx in Received(calls) ==> rx in rxs
    ensures KeySet(StateBefore(st, calls, |calls|)) <= t
    decreases |calls|
  {
    hide ClosedFor, Process, KeySet, Within;
    if calls == [] {
      KeysWithin(st, rxs, t);
    } else {
      assert forall rx :: rx in calls[0].batch ==> rx in Received(calls);
      assert forall rx :: rx in Received(calls[1..]) ==> rx in Received(calls);
      ProcessWithin(st, calls[0].batch, rxs, t);
      RunWithin(Process(st, calls[0].batch).0, calls[1..], rxs, t);
    }
  }

  // ---- In a short run nothing is forgotten ---------------------------------------------------

  // No more packets than the lists hold, with numbers so near each other that no FEC packet
  // counts as stale, and one FEC packet under a number.
  ghost predicate Short(rxs: seq<ReceivedPacket>) {
    && |rxs| <= MAX_MEDIA_PACKETS
    && (forall i, j :: 0 <= i < |rxs| && 0 <= j < |rxs| ==> Abs(rxs[i].seqNum - rxs[j].seqNum) <= 0x3fff)
    && (forall i, j :: 0 <= i < |rxs| && 0 <= j < |rxs| && rxs[i].ReceivedFec? && rxs[j].ReceivedFec? && rxs[i].seqNum == rxs[j].seqNum ==>
          rxs[i].fec == rxs[j].fec)
  }

  // What the age test means in a half window: a distance above 0x3fff, or a wrap between
  // the two numbers, however near they are.
  lemma StaleExactly(b: int, x: u16, y: u16)
    requires Live(b, x) && Live(b, y)
    ensures Abs(x - y) > 0x3fff <==> Abs(Unwrap(b, x) - Unwrap(b, y)) > 0x3fff || Unwrap(b, x) / WRAP != Unwrap(b, y) / WRAP
  {
    var u, v := Unwrap(b, x), Unwrap(b, y);
    assert b <= u < b + HALF && b <= v < b + HALF && u % WRAP == x && v % WRAP == y;
    hide Unwrap, Live;
    assert u == WRAP * (u / WRAP) + x && v == WRAP * (v / WRAP) + y;
    assert u / WRAP == v / WRAP || u / WRAP == v / WRAP + 1 || u / WRAP + 1 == v / WRAP;
  }

  // The FEC packet was received under its number, and knows exactly its listed members.
  ghost predicate FecTracked(f: FecPacket, rxs: seq<ReceivedPacket>, keys: seq<u16>) {
    && ProtectedKeys(f.protectedList) == CoveredSeqs(f.pkt)
    && (exists k :: 0 <= k < |rxs| && rxs[k].ReceivedFec? && rxs[k].seqNum == f.seqNum && rxs[k].fec == f.pkt)
    && (forall j :: 0 <= j < |f.protectedList| ==> (f.protectedList[j].pkt.Some? <==> f.protectedList[j].seqNum in keys))
  }

  ghost predicate AllIn(xs: seq<u16>, keys: seq<u16>) { forall x :: x in xs ==> x in keys }

  // A received media packet is listed; a received FEC packet waits, or has all its
  // members listed.
  ghost predicate Handled(rx: ReceivedPacket, st: State) {
    match rx
    case ReceivedMedia(n, _) => n in Keys(st.recovered)
    case ReceivedFec(n, _, fec) => n in FecKeys(st.fecs) || AllIn(CoveredSeqs(fec), Keys(st.recovered))
  }

  ghost predicate FecsTracked(st: State, rxs: seq<ReceivedPacket>) {
    forall i :: 0 <= i < |st.fecs| ==> FecTracked(st.fecs[i], rxs, Keys(st.recovered))
  }

  ghost predicate AllHandled(st: State, rxs: seq<ReceivedPacket>) { forall k :: 0 <= k < |rxs| ==> Handled(rxs[k], st) }

  ghost predicate Tracked(st: State, rxs: seq<ReceivedPacket>) {
    FecsTracked(st, rxs) && AllHandled(st, rxs) && |st.recovered| + |st.fecs| <= |rxs|
  }

  lemma PushedKeys(list: seq<RecoveredPacket>, r: RecoveredPacket)
    ensures forall x :: x in Keys(PushSorted(list, r)) <==> x in Keys(list) || x == r.seqNum
  {
    PushSortedKeys(list, r);
    hide InsertAt, PushSorted;
  }

  // One more packet in the list, and known to the FEC packets.
  lemma LearnTracked(st: State, rxs: seq<ReceivedPacket>, r: RecoveredPacket)
    requires FecsTracked(st, rxs)
    ensures FecsTracked(State(CoverAll(st.fecs, r), PushSorted(st.recovered, r)), rxs)
  {
    hide CoveredSeqs, PushSorted;
    PushedKeys(st.recovered, r);
    forall i | 0 <= i < |st.fecs|
      ensures FecTracked(CoverAll(st.fecs, r)[i], rxs, Keys(PushSorted(st.recovered, r)))
    {
      assert FecTracked(st.fecs[i], rxs, Keys(st.recovered));
      CoverTracked(st.fecs[i], rxs, Keys(st.recovered), Keys(PushSorted(st.recovered, r)), r);
    }
  }

  lemma CoverTracked(f: FecPacket, rxs: seq<ReceivedPacket>, keys: seq<u16>, keys': seq<u16>, r: RecoveredPacket)
    requires FecTracked(f, rxs, keys) && forall x :: x in keys' <==> x in keys || x == r.seqNum
    ensures FecTracked(CoverFec(f, r), rxs, keys')
  {
    hide CoveredSeqs;
    assert ProtectedKeys(CoverList(f.protectedList, r)) == ProtectedKeys(f.protectedList);
  }

  // What is handled stays so while the list grows and no FEC packet goes.
  lemma HandledStays(st: State, st': State, rxs: seq<ReceivedPacket>)
    requires AllHandled(st, rxs) && AllIn(Keys(st.recovered), Keys(st'.recovered)) && AllIn(FecKeys(st.fecs), FecKeys(st'.fecs))
    ensures AllHandled(st', rxs)
  {
    hide CoveredSeqs;
    forall k | 0 <= k < |rxs|
      ensures Handled(rxs[k], st')
    {
      assert Handled(rxs[k], st);
    }
  }

  lemma MoreReceived(st: State, rxs: seq<ReceivedPacket>, rx: ReceivedPacket)
    requires FecsTracked(st, rxs)
    ensures FecsTracked(st, rxs + [rx])
  {
    hide CoveredSeqs;
    forall i | 0 <= i < |st.fecs|
      ensures FecTracked(st.fecs[i], rxs + [rx], Keys(st.recovered))
    {
      assert FecTracked(st.fecs[i], rxs, Keys(st.recovered));
      var k :| 0 <= k < |rxs| && rxs[k].ReceivedFec? && rxs[k].seqNum == st.fecs[i].seqNum && rxs[k].fec == st.fecs[i].pkt;
      assert (rxs + [rx])[k] == rxs[k];
    }
  }

  lemma LastHandled(st: State, rxs: seq<ReceivedPacket>, rx: ReceivedPacket)
    requires AllHandled(st, rxs) && Handled(rx, st)
    ensures AllHandled(st, rxs + [rx])
  {
    hide Handled;
  }

  lemma InsertMediaTracked(st: State, rxs: seq<ReceivedPacket>, rx: ReceivedPacket)
    requires Tracked(st, rxs) && rx.ReceivedMedia?
    ensures Tracked(InsertMedia(st, rx.seqNum, rx.media), rxs + [rx])
  {
    var next := InsertMedia(st, rx.seqNum, rx.media);
    if rx.seqNum !in Keys(st.recovered) {
      var r := RecoveredPacket(rx.seqNum, false, true, rx.media);
      LearnTracked(st, rxs, r);
      PushedKeys(st.recovered, r);
      CoverKeys(st.fecs, r);
    }
    hide FecsTracked, AllHandled, PushSorted, CoverAll;
    HandledStays(st, next, rxs);
    MoreReceived(next, rxs, rx);
    LastHandled(next, rxs, rx);
  }

  lemma NewFecTracked(rx: ReceivedPacket, rxs: seq<ReceivedPacket>, list: seq<RecoveredPacket>)
    requires rx.ReceivedFec?
    ensures FecTracked(NewFec(rx.seqNum, rx.ssrc, rx.fec, list), rxs + [rx], Keys(list))
  {
    hide CoveredSeqs, Lookup;
    var f := NewFec(rx.seqNum, rx.ssrc, rx.fec, list);
    assert ProtectedKeys(f.protectedList) == CoveredSeqs(rx.fec);
    assert (rxs + [rx])[|rxs|] == rx;
  }

  lemma PushedFecs(list: seq<FecPacket>, f: FecPacket)
    ensures forall g :: g in PushFecSorted(list, f) ==> g in list || g == f
    ensures forall x :: x in FecKeys(PushFecSorted(list, f)) <==> x in FecKeys(list) || x == f.seqNum
  {
    PushFecSortedKeys(list, f);
    hide InsertAt;
  }

  lemma InsertFecTracked(st: State, rxs: seq<ReceivedPacket>, rx: ReceivedPacket)
    requires Tracked(st, rxs) && rx.ReceivedFec? && |rxs| < MAX_MEDIA_PACKETS
    ensures Tracked(InsertFec(st, rx.seqNum, rx.ssrc, rx.fec), rxs + [rx])
  {
    hide CoveredSeqs, FecTracked, AllHandled;
    MoreReceived(st, rxs, rx);
    var next := InsertFec(st, rx.seqNum, rx.ssrc, rx.fec);
    if rx.seqNum !in FecKeys(st.fecs) && CoveredSeqs(rx.fec) != [] {
      var f := NewFec(rx.seqNum, rx.ssrc, rx.fec, st.recovered);
      NewFecTracked(rx, rxs, st.recovered);
      PushedFecs(st.fecs, f);
      assert next.fecs == PushFecSorted(st.fecs, f);
      hide PushFecSorted, NewFec;
      forall i | 0 <= i < |next.fecs|
        ensures FecTracked(next.fecs[i], rxs + [rx], Keys(st.recovered))
      {
        assert next.fecs[i] in next.fecs;
      }
    }
    HandledStays(st, next, rxs);
    LastHandled(next, rxs, rx);
  }

  lemma NotStale(st: State, rxs: seq<ReceivedPacket>, rx: ReceivedPacket)
    requires Tracked(st, rxs) && Short(rxs + [rx])
    ensures DropStaleFec(st, rx.seqNum) == st
  {
    hide CoveredSeqs, AllHandled;
    if st.fecs != [] {
      assert FecTracked(st.fecs[0], rxs, Keys(st.recovered));
      var k :| 0 <= k < |rxs| && rxs[k].seqNum == st.fecs[0].seqNum;
      assert (rxs + [rx])[k] == rxs[k] && (rxs + [rx])[|rxs|] == rx;
    }
  }

  lemma ShortPrefix(rxs: seq<ReceivedPacket>, more: seq<ReceivedPacket>)
    requires Short(rxs + more)
    ensures Short(rxs)
  {
    assert forall k :: 0 <= k < |rxs| ==> (rxs + more)[k] == rxs[k];
  }

  lemma {:induction false} InsertAllTracked(st: State, rxs: seq<ReceivedPacket>, batch: seq<ReceivedPacket>)
    requires Tracked(st, rxs) && Short(rxs + batch)
    ensures Tracked(InsertAll(st, batch), rxs + batch)
  {
    if batch == [] {
      assert rxs + batch == rxs;
    } else {
      var init, rx := batch[..|batch| - 1], batch[|batch| - 1];
      assert rxs + batch == rxs + init + [rx];
      ShortPrefix(rxs + init, [rx]);
      InsertAllTracked(st, rxs, init);
      NotStale(InsertAll(st, init), rxs + init, rx);
      assert |rxs + init| < MAX_MEDIA_PACKETS;
      hide Tracked, Short, DropStaleFec, InsertMedia, InsertFec;
      match rx
      case ReceivedMedia(_, _) => InsertMediaTracked(InsertAll(st, init), rxs + init, rx);
      case ReceivedFec(_, _, _) => InsertFecTracked(InsertAll(st, init), rxs + init, rx);
    }
  }

  // An FEC packet all of whose members are listed has done its work.
  lemma RemoveTracked(st: State, i: nat, rxs: seq<ReceivedPacket>)
    requires FecsTracked(st, rxs) && AllHandled(st, rxs) && Short(rxs) && i < |st.fecs|
    requires AllIn(CoveredSeqs(st.fecs[i].pkt), Keys(st.recovered))
    ensures FecsTracked(st.(fecs := Without(st.fecs, i)), rxs) && AllHandled(st.(fecs := Without(st.fecs, i)), rxs)
  {
    hide CoveredSeqs, AllIn;
    var f, next := st.fecs[i], st.(fecs := Without(st.fecs, i));
    assert FecTracked(f, rxs, Keys(st.recovered));
    hide FecTracked;
    OtherFecs(st.fecs, i);
    hide Without, Short;
    forall k | 0 <= k < |rxs|
      ensures Handled(rxs[k], next)
    {
      assert Handled(rxs[k], st);
      if rxs[k].ReceivedFec? && rxs[k].seqNum == f.seqNum {
        SameFec(f, rxs, Keys(st.recovered), k);
      }
    }
    assert forall g :: g in next.fecs ==> g in st.fecs;
  }

  lemma OtherFecs(fecs: seq<FecPacket>, i: nat)
    requires i < |fecs|
    ensures forall g :: g in Without(fecs, i) ==> g in fecs
    ensures forall x :: x in FecKeys(fecs) && x != fecs[i].seqNum ==> x in FecKeys(Without(fecs, i))
  {
    WithoutKeys(fecs, i);
    assert FecKeys(fecs) == FecKeys(fecs)[..i] + [fecs[i].seqNum] + FecKeys(fecs)[i + 1..];
  }

  lemma SameFec(f: FecPacket, rxs: seq<ReceivedPacket>, keys: seq<u16>, k: nat)
    requires FecTracked(f, rxs, keys) && Short(rxs) && k < |rxs| && rxs[k].ReceivedFec? && rxs[k].seqNum == f.seqNum
    ensures rxs[k].fec == f.pkt
  {
    hide CoveredSeqs;
    var k' :| 0 <= k' < |rxs| && rxs[k'].ReceivedFec? && rxs[k'].seqNum == f.seqNum && rxs[k'].fec == f.pkt;
  }

  // The members that are not missing are listed.
  lemma MembersListed(f: FecPacket, rxs: seq<ReceivedPacket>, keys: seq<u16>)
    requires FecTracked(f, rxs, keys)
    ensures forall y :: y in CoveredSeqs(f.pkt) ==> y in keys || y in Missing(f.protectedList)
  {
    hide CoveredSeqs, Missing;
    forall y | y in CoveredSeqs(f.pkt)
      ensures y in keys || y in Missing(f.protectedList)
    {
      var j :| 0 <= j < |f.protectedList| && ProtectedKeys(f.protectedList)[j] == y;
      if f.protectedList[j].pkt.None? {
        MissingMembers(f.protectedList, j);
      }
    }
  }

  lemma RecoverAtTracked(st: State, i: nat, rxs: seq<ReceivedPacket>)
    requires Tracked(st, rxs) && Short(rxs) && i < |st.fecs| && |Missing(st.fecs[i].protectedList)| == 1
    ensures Tracked(RecoverAt(st, i), rxs)
  {
    hide CoveredSeqs, Missing, Known, Recovered;
    var r := Recover(st.fecs[i]);
    var mid := State(CoverAll(st.fecs, r), PushSorted(st.recovered, r));
    MembersListed(st.fecs[i], rxs, Keys(st.recovered));
    PushedKeys(st.recovered, r);
    CoverKeys(st.fecs, r);
    LearnTracked(st, rxs, r);
    HandledStays(st, mid, rxs);
    assert AllIn(CoveredSeqs(mid.fecs[i].pkt), Keys(mid.recovered));
    hide FecsTracked, AllHandled, PushSorted, Recover, CoverAll, Short;
    RemoveTracked(mid, i, rxs);
  }

  lemma FinishedTracked(st: State, i: nat, rxs: seq<ReceivedPacket>)
    requires Tracked(st, rxs) && Short(rxs) && i < |st.fecs| && |Missing(st.fecs[i].protectedList)| == 0
    ensures Tracked(st.(fecs := Without(st.fecs, i)), rxs)
  {
    hide CoveredSeqs, Missing, AllHandled, Short;
    MembersListed(st.fecs[i], rxs, Keys(st.recovered));
    RemoveTracked(st, i, rxs);
  }

  lemma {:induction false} AttemptTracked(st: State, i: nat, rxs: seq<ReceivedPacket>)
    requires Tracked(st, rxs) && Short(rxs) && i <= |st.fecs|
    ensures Tracked(Attempt(st, i), rxs)
    decreases |st.fecs|, |st.fecs| - i
  {
    hide Missing, Tracked, Short, RecoverAt, Without;
    if i == |st.fecs| {
    } else if |Missing(st.fecs[i].protectedList)| == 1 {
      RecoverAtTracked(st, i, rxs);
      AttemptTracked(RecoverAt(st, i), 0, rxs);
    } else if |Missing(st.fecs[i].protectedList)| == 0 {
      FinishedTracked(st, i, rxs);
      AttemptTracked(st.(fecs := Without(st.fecs, i)), i, rxs);
    } else {
      AttemptTracked(st, i + 1, rxs);
    }
  }

  ghost predicate AllNeedTwo(st: State) { forall f :: f in st.fecs ==> |Missing(f.protectedList)| > 1 }

  lemma MarkTracked(st: State, rxs: seq<ReceivedPacket>)
    requires Tracked(st, rxs)
    ensures Tracked(st.(recovered := MarkAll(st.recovered)), rxs)
  {
    assert Keys(MarkAll(st.recovered)) == Keys(st.recovered);
    hide CoveredSeqs, FecTracked, Keys;
    var next := st.(recovered := MarkAll(st.recovered));
    HandledStays(st, next, rxs);
  }

  lemma ProcessTracked(st: State, rxs: seq<ReceivedPacket>, batch: seq<ReceivedPacket>)
    requires Tracked(st, rxs) && Short(rxs + batch) && AllNeedTwo(st)
    ensures Tracked(Process(st, batch).0, rxs + batch) && AllNeedTwo(Process(st, batch).0)
  {
    if batch == [] {
      assert rxs + batch == rxs;
      MarkTracked(st, rxs);
    } else {
      assert |st.recovered| < MAX_MEDIA_PACKETS && ResetIfFar(st, batch) == st;
      InsertAllTracked(st, rxs, batch);
      var all := InsertAll(st, batch);
      assert InsertPackets(st, batch) == all;
      hide Tracked, Short, InsertAll, Attempt, Missing;
      AttemptTracked(all, 0, rxs + batch);
      LeftNeedTwo(all, 0);
      MarkTracked(Attempt(all, 0), rxs + batch);
    }
  }

  lemma {:induction false} RunTracked(st: State, rxs: seq<ReceivedPacket>, calls: seq<Call>)
    requires Tracked(st, rxs) && AllNeedTwo(st) && Short(rxs + Received(calls))
    ensures var final := StateBefore(st, calls, |calls|); Tracked(final, rxs + Received(calls)) && AllNeedTwo(final)
    decreases |calls|
  {
    hide Tracked, Short, Process, AllNeedTwo;
    if calls == [] {
      assert rxs + Received(calls) == rxs;
    } else {
      var batch, rest := calls[0].batch, Received(calls[1..]);
      assert rxs + Received(calls) == (rxs + batch) + rest;
      ShortPrefix(rxs + batch, rest);
      ProcessTracked(st, rxs, batch);
      RunTracked(Process(st, batch).0, rxs + batch, calls[1..]);
    }
  }

  // ---- What a short run recovers, exactly ------------------------------------------------------

  // An FEC packet whose members are listed save one misses no other.
  lemma MissesAtMost(f: FecPacket, rxs: seq<ReceivedPacket>, keys: seq<u16>, x: u16)
    requires FecTracked(f, rxs, keys) && forall y :: y in CoveredSeqs(f.pkt) && y != x ==> y in keys
    ensures |Missing(f.protectedList)| <= 1
  {
    CoveredAscends(f.pkt);
    FecMachine.KeysDistinct(CoveredSeqs(f.pkt));
    hide CoveredSeqs, Missing;
    forall y | y in MissSet(f)
      ensures y == x
    {
      MissingIsCovered(f.protectedList, y);
      var j :| 0 <= j < |f.protectedList| && f.protectedList[j].seqNum == y && f.protectedList[j].pkt.None?;
      assert ProtectedKeys(f.protectedList)[j] == y;
    }
    assert forall j :: 0 <= j < |f.protectedList| ==> ProtectedKeys(f.protectedList)[j] == CoveredSeqs(f.pkt)[j];
    if |Missing(f.protectedList)| > 1 {
      TwoMissing(f, x);
    }
  }

  // When every FEC packet that waits misses two, the list is closed for what was received.
  lemma TrackedIsClosed(st: State, rxs: seq<ReceivedPacket>)
    requires Tracked(st, rxs) && Short(rxs) && AllNeedTwo(st)
    ensures ClosedFor(rxs, KeySet(st))
  {
    hide CoveredSeqs, Missing, Short;
    var keys := Keys(st.recovered);
    assert forall k :: 0 <= k < |rxs| ==> Handled(rxs[k], st);
    forall k, x | 0 <= k < |rxs| && rxs[k].ReceivedFec? && x in CoveredSet(rxs[k].fec) && CoveredSet(rxs[k].fec) <= KeySet(st) + {x}
      ensures x in KeySet(st)
    {
      assert Handled(rxs[k], st);
      assert forall y :: y in CoveredSeqs(rxs[k].fec) ==> y in CoveredSet(rxs[k].fec);
      if rxs[k].seqNum in FecKeys(st.fecs) {
        var i :| 0 <= i < |st.fecs| && FecKeys(st.fecs)[i] == rxs[k].seqNum;
        assert FecTracked(st.fecs[i], rxs, keys) && st.fecs[i] in st.fecs;
        SameFec(st.fecs[i], rxs, keys, k);
        MissesAtMost(st.fecs[i], rxs, keys, x);
        assert false;
      }
    }
  }

  // In a short run, however the packets are ordered, batched, duplicated or lost, the list
  // ends up with exactly the least set that has the received media packets and is closed
  // under recovery by the received FEC packets.
  lemma RunRecoversClosure(calls: seq<Call>)
    requires Short(Received(calls))
    ensures var recovered := KeySet(StateBefore(State([], []), calls, |calls|));
      ClosedFor(Received(calls), recovered) && forall t :: ClosedFor(Received(calls), t) ==> recovered <= t
  {
    var st := State([], []);
    assert [] + Received(calls) == Received(calls);
    NothingTracked();
    hide *;
    RunTracked(st, [], calls);
    TrackedIsClosed(StateBefore(st, calls, |calls|), Received(calls));
    forall t | ClosedFor(Received(calls), t)
      ensures KeySet(StateBefore(st, calls, |calls|)) <= t
    {
      NothingWithin(Received(calls), t);
      RunWithin(st, calls, Received(calls), t);
    }
  }

  lemma NothingWithin(rxs: seq<ReceivedPacket>, t: set<u16>)
    ensures Within(State([], []), rxs, t)
  {
  }

  lemma NothingTracked()
    ensures Tracked(State([], []), []) && AllNeedTwo(State([], []))
  {
  }

  lemma ClosedForAlike(rxs: seq<ReceivedPacket>, rxs': seq<ReceivedPacket>, t: set<u16>)
    requires (forall rx :: rx in rxs' ==> rx in rxs) && ClosedFor(rxs, t)
    ensures ClosedFor(rxs', t)
  {
    hide CoveredSet;
    forall k, x | 0 <= k < |rxs'| && rxs'[k].ReceivedFec? && x in CoveredSet(rxs'[k].fec) && CoveredSet(rxs'[k].fec) <= t + {x}
      ensures x in t
    {
      assert rxs'[k] in rxs;
    }
    forall k | 0 <= k < |rxs'| && rxs'[k].ReceivedMedia?
      ensures rxs'[k].seqNum in t
    {
      assert rxs'[k] in rxs;
    }
  }

  // So two short runs on the same packets recover the same numbers.
  lemma OrderAndBatchesIrrelevant(calls: seq<Call>, calls': seq<Call>)
    requires Short(Received(calls)) && Short(Received(calls')) && forall rx :: rx in Received(calls) <==> rx in Received(calls')
    ensures KeySet(StateBefore(State([], []), calls, |calls|)) == KeySet(StateBefore(State([], []), calls', |calls'|))
  {
    hide Short, KeySet, ClosedFor;
    RunRecoversClosure(calls);
    RunRecoversClosure(calls');
    var t, t' := KeySet(StateBefore(State([], []), calls, |calls|)), KeySet(StateBefore(State([], []), calls', |calls'|));
    ClosedForAlike(Received(calls), Received(calls'), t);
    ClosedForAlike(Received(calls'), Received(calls), t');
  }

  // ---- In one call -----------------------------------------------------------------------------

  // What an FEC packet misses alone goes up in the call, exactly if fewer than 48 of the
  // listed and recovered numbers are newer; in any case it is listed afterwards, or the
  // list is full of newer ones.
  lemma OneMissingGoesUp(b: int, st: State, batch: seq<ReceivedPacket>, t: set<u16>, f: FecPacket, s: u16)
    requires batch != [] && Callable(b, st, batch) && Least(Inserted(st, batch).fecs, t)
    requires f in Inserted(st, batch).fecs && MissSet(f) == {s}
    ensures s in ListNumbers(st, batch) <==>
      |Newer(Numbers(b, Keys(Inserted(st, batch).recovered)) + NumbersIn(b, t), Unwrap(b, s))| < MAX_MEDIA_PACKETS
    ensures Settled(b, Keys(Process(st, batch).0.recovered), Unwrap(b, s))
  {
    var kept, all := Keys(Decode(st, batch).recovered), Numbers(b, Keys(Inserted(st, batch).recovered)) + NumbersIn(b, t);
    assert s in MissSet(f) && s in t;
    ProcessKeys(st, batch);
    hide Process, Decode, MissSet, Inserted, Callable, ListNumbers;
    LeastIsNews(b, st, batch, t);
    NewsAreMissing(b, st, batch, s);
    InNumbersIn(b, t, s);
    ListNumbersAre(b, st, batch, s);
    NewestCount(b, kept, all, Unwrap(b, s));
    assert AllLive(b, kept);
    NumbersOf(b, kept, s);
    hide NewestOf, Newer, NewsOf, Numbers, NumbersIn, Settled, Least;
    KeptIsSettled(b, kept, all, Unwrap(b, s));
  }

  // ---- A lost packet is repaired ----------------------------------------------------------------

  ghost predicate WentUp(st: State, calls: seq<Call>, s: u16) {
    exists k :: 0 <= k < |calls| && s in ListNumbers(StateBefore(st, calls, k), calls[k].batch)
  }

  // What a call lists is listed before, received, or goes up.
  lemma CallListed(b: int, st: State, batch: seq<ReceivedPacket>, s: u16)
    requires Callable(b, st, batch) && s in Keys(Process(st, batch).0.recovered)
    ensures s in Keys(st.recovered) || HasMedia(batch, s) || s in ListNumbers(st, batch)
  {
    ProcessKeys(st, batch);
    if batch != [] {
      var list, all := Decode(st, batch).recovered, InsertAll(ResetIfFar(st, batch), batch);
      hide Process, ListNumbers, HasMedia;
      ListNumbersAre(b, st, batch, s);
      AttemptMembers(Inserted(st, batch), 0);
      InsertAllKeys(ResetIfFar(st, batch), batch, s);
      KeysMember(list, s);
      KeysMember(Inserted(st, batch).recovered, s);
      KeysMember(all.recovered, s);
      hide Decode, Callable, News, InsertAll;
    }
  }

  lemma WentUpLater(st: State, calls: seq<Call>, s: u16)
    requires calls != [] && WentUp(Process(st, calls[0].batch).0, calls[1..], s)
    ensures WentUp(st, calls, s)
  {
    hide ListNumbers, Process;
    var next := Process(st, calls[0].batch).0;
    var k :| 0 <= k < |calls[1..]| && s in ListNumbers(StateBefore(next, calls[1..], k), calls[1..][k].batch);
    assert StateBefore(st, calls, k + 1) == StateBefore(next, calls[1..], k) && calls[k + 1] == calls[1..][k];
  }

  lemma HasMediaJoined(rxs: seq<ReceivedPacket>, more: seq<ReceivedPacket>, s: u16)
    ensures HasMedia(rxs, s) || HasMedia(more, s) ==> HasMedia(rxs + more, s)
  {
    if HasMedia(rxs, s) {
      var i :| 0 <= i < |rxs| && rxs[i].ReceivedMedia? && rxs[i].seqNum == s;
      assert (rxs + more)[i] == rxs[i];
    }
    if HasMedia(more, s) {
      var i :| 0 <= i < |more| && more[i].ReceivedMedia? && more[i].seqNum == s;
      assert (rxs + more)[|rxs| + i] == more[i];
    }
  }

  // Over a legal run, whatever is listed was listed before, received, or has gone up.
  lemma {:induction false} RunListed(b: int, sent: Stream, ssrc: SsrcBytes, st: State, calls: seq<Call>, s: u16)
    requires GoodStream(sent, ssrc) && Invariant(b, sent, ssrc, st) && AllReturned(st.recovered)
    requires LegalReceiverRun(b, sent, ssrc, st, calls) && s in Keys(StateBefore(st, calls, |calls|).recovered)
    ensures s in Keys(st.recovered) || HasMedia(Received(calls), s) || WentUp(st, calls, s)
    decreases |calls|
  {
    FirstCall(b, sent, ssrc, st, calls);
    hide *;
    if calls != [] {
      var c, next := calls[0], Process(st, calls[0].batch).0;
      MoveWindow(b, c.base, sent, ssrc, st);
      CallIsCallable(c.base, sent, ssrc, st, c.batch);
      ProcessKeeps(c.base, sent, ssrc, st, c.batch);
      RunListed(c.base, sent, ssrc, next, calls[1..], s);
      HasMediaJoined(c.batch, Received(calls[1..]), s);
      if WentUp(next, calls[1..], s) {
        WentUpLater(st, calls, s);
      } else if s in Keys(next.recovered) {
        CallListed(c.base, st, c.batch, s);
        FirstGoesUp(st, calls, s);
      }
    }
  }

  lemma FirstCall(b: int, sent: Stream, ssrc: SsrcBytes, st: State, calls: seq<Call>)
    requires LegalReceiverRun(b, sent, ssrc, st, calls)
    ensures calls == [] ==> StateBefore(st, calls, |calls|) == st
    ensures calls != [] ==>
      var c, next := calls[0], Process(st, calls[0].batch).0;
      && StaysLive(b, c.base, st) && CallLegal(c.base, sent, ssrc, c.batch) && LegalReceiverRun(c.base, sent, ssrc, next, calls[1..])
      && StateBefore(st, calls, |calls|) == StateBefore(next, calls[1..], |calls[1..]|)
      && Received(calls) == c.batch + Received(calls[1..])
  {
    hide StaysLive, CallLegal, Process;
  }

  lemma CallIsCallable(b: int, sent: Stream, ssrc: SsrcBytes, st: State, batch: seq<ReceivedPacket>)
    requires Invariant(b, sent, ssrc, st) && AllReturned(st.recovered) && CallLegal(b, sent, ssrc, batch)
    ensures Callable(b, st, batch)
  {
    hide Ordered, Authentic, ReceivedLive, ReceivedAuthentic, AllReturned;
  }

  lemma FirstGoesUp(st: State, calls: seq<Call>, s: u16)
    requires calls != []
    ensures s in ListNumbers(st, calls[0].batch) ==> WentUp(st, calls, s)
  {
    hide ListNumbers;
    assert StateBefore(st, calls, 0) == st;
  }

  // What a call hands up is handed up by the run.
  lemma {:induction false} UpIsHandedUp(st: State, calls: seq<Call>, k: nat, p: Packet)
    requires k < |calls| && p in Process(StateBefore(st, calls, k), calls[k].batch).1
    ensures p in HandedUp(st, calls)
    decreases k
  {
    hide Process;
    if k > 0 {
      UpIsHandedUp(Process(st, calls[0].batch).0, calls[1..], k - 1, p);
    }
  }

  // A packet that was sent under s is among those handed up.
  ghost predicate HandedUpAs(sent: Stream, ps: seq<Packet>, s: u16) {
    exists u :: u in sent && u % WRAP == s && sent[u] in ps
  }

  lemma WhatWentUpWasSent(b: int, sent: Stream, ssrc: SsrcBytes, st: State, calls: seq<Call>, s: u16)
    requires GoodStream(sent, ssrc) && Invariant(b, sent, ssrc, st) && AllReturned(st.recovered)
    requires LegalReceiverRun(b, sent, ssrc, st, calls) && WentUp(st, calls, s)
    ensures HandedUpAs(sent, HandedUp(st, calls), s)
  {
    hide GoodStream, Invariant, LegalReceiverRun, Process, HandedUp, ListNumbers, FrontNumber, CallLegal, Callable, AllReturned;
    var k :| 0 <= k < |calls| && s in ListNumbers(StateBefore(st, calls, k), calls[k].batch);
    var before, c := StateBefore(st, calls, k), calls[k];
    Reached(b, sent, ssrc, st, calls, k);
    ProcessKeeps(c.base, sent, ssrc, before, c.batch);
    var j :| 0 <= j < |ListNumbers(before, c.batch)| && ListNumbers(before, c.batch)[j] == s;
    var i := |FrontNumber(c.batch)| + j;
    assert UpNumbers(before, c.batch)[i] == s;
    var p := Process(before, c.batch).1[i];
    assert WasSent(c.base, sent, s, p);
    UpIsHandedUp(st, calls, k, p);
  }

  // If an FEC packet that the encoder made and all its media packets but one are received
  // in a short run, in whatever order, the missing packet is listed in the end, and has
  // been handed up as it was sent.
  lemma LossIsRepaired(b: int, sent: Stream, ssrc: SsrcBytes, calls: seq<Call>, media: seq<Packet>, row: seq<byte>, f: nat, s: u16)
    requires GoodStream(sent, ssrc) && LegalReceiverRun(b, sent, ssrc, State([], []), calls) && Short(Received(calls))
    requires f < |Received(calls)| && Received(calls)[f].ReceivedFec? && AllMediaSized(media) && FecFor(Received(calls)[f].fec, media, row)
    requires s in SeqNums(Protected(media, row)) && !HasMedia(Received(calls), s)
    requires forall n :: n in SeqNums(Protected(media, row)) && n != s ==> HasMedia(Received(calls), n)
    ensures s in KeySet(StateBefore(State([], []), calls, |calls|))
    ensures HandedUpAs(sent, HandedUp(State([], []), calls), s)
  {
    var st, rxs := State([], []), Received(calls);
    RunRecoversClosure(calls);
    var final := StateBefore(st, calls, |calls|);
    OneMemberFollows(rxs, KeySet(final), f, SeqNums(Protected(media, row)), s);
    assert s in Keys(final.recovered);
    NothingYet(b, sent, ssrc);
    hide *;
    RunListed(b, sent, ssrc, st, calls, s);
    WhatWentUpWasSent(b, sent, ssrc, st, calls, s);
  }

  lemma OneMemberFollows(rxs: seq<ReceivedPacket>, t: set<u16>, f: nat, members: seq<u16>, s: u16)
    requires ClosedFor(rxs, t) && f < |rxs| && rxs[f].ReceivedFec? && CoveredSeqs(rxs[f].fec) == members && s in members
    requires forall n :: n in members && n != s ==> HasMedia(rxs, n)
    ensures s in t
  {
    hide CoveredSeqs;
    assert CoveredSet(rxs[f].fec) <= t + {s};
  }

  lemma NothingYet(b: int, sent: Stream, ssrc: SsrcBytes)
    ensures Invariant(b, sent, ssrc, State([], [])) && AllReturned(State([], []).recovered) && Keys(State([], []).recovered) == []
  {
  }
}
