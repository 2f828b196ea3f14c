// What FecReceiverImpl hands up over whole runs: only what was sent; which numbers go up
// in a call, exactly; and that a number goes up from the recovered list again only after
// the decoder has been reset.
module FecDelivery {
  import opened Bytes
  import opened SeqNum
  import opened ParityCode
  import opened FecEncoder
  import opened FecGenerator
  import opened FecDecoder
  import opened FecInvariant
  import opened FecAuthentic
  import opened Peeling
  import opened FecOutcome
  import opened FecMachine
  import opened FecReceiver

  // ---- Entries that have been handed up are marked ---------------------------------------

  lemma InsertOneReturned(st: State, rx: ReceivedPacket)
    requires AllReturned(st.recovered)
    ensures AllReturned(InsertOne(st, rx).recovered)
  {
    hide CoveredSeqs, NewFec, CoverAll, InsertAt, PushFecSorted, FecKeys;
  }

  lemma {:induction false} InsertAllReturned(st: State, batch: seq<ReceivedPacket>)
    requires AllReturned(st.recovered)
    ensures AllReturned(InsertAll(st, batch).recovered)
  {
    hide AllReturned, InsertOne;
    if batch != [] {
      InsertAllReturned(st, batch[..|batch| - 1]);
      InsertOneReturned(InsertAll(st, batch[..|batch| - 1]), batch[|batch| - 1]);
    }
  }

  lemma PushMembers(list: seq<RecoveredPacket>, r: RecoveredPacket)
    ensures forall x :: x in Newest(PushSorted(list, r)) ==> x in list || x == r
  {
    hide InsertAt;
  }

  lemma {:induction false} AttemptMembers(st: State, i: nat)
    requires i <= |st.fecs|
    ensures forall r :: r in Attempt(st, i).recovered ==> r in st.recovered || r in News(st, i)
    ensures forall r :: r in News(st, i) ==> !r.returned && r.wasRecovered
    decreases |st.fecs|, |st.fecs| - i
  {
    hide Missing, Newest, PushSorted, CoverAll, Known, Recovered;
    if i == |st.fecs| {
    } else if |Missing(st.fecs[i].protectedList)| == 1 {
      PushMembers(st.recovered, Recover(st.fecs[i]));
      AttemptMembers(RecoverAt(st, i), 0);
    } else if |Missing(st.fecs[i].protectedList)| == 0 {
      AttemptMembers(st.(fecs := Without(st.fecs, i)), i);
    } else {
      AttemptMembers(st, i + 1);
    }
  }

  // The decoder between inserting a batch and recovering.
  function Inserted(st: State, batch: seq<ReceivedPacket>): State
    requires batch != []
  {
    InsertPackets(ResetIfFar(st, batch), batch)
  }

  // If everything was handed up before a call, then what is not marked after decoding
  // is exactly what the call has recovered and kept.
  lemma UnmarkedAreNews(st: State, batch: seq<ReceivedPacket>)
    requires AllReturned(st.recovered) && batch != []
    ensures forall r :: r in Decode(st, batch).recovered ==> (!r.returned <==> r in News(Inserted(st, batch), 0))
  {
    hide News, Attempt, InsertAll;
    InsertAllReturned(ResetIfFar(st, batch), batch);
    assert AllReturned(Inserted(st, batch).recovered);
    AttemptMembers(Inserted(st, batch), 0);
  }

  lemma {:induction false} FreshMembers(list: seq<RecoveredPacket>)
    ensures forall r :: r in Fresh(list) <==> r in list && !r.returned
  {
    if list != [] {
      FreshMembers(list[..|list| - 1]);
      assert list == list[..|list| - 1] + [list[|list| - 1]];
    }
  }

  lemma {:induction false} FreshAscends(list: seq<RecoveredPacket>)
    requires Ascending(Keys(list))
    ensures Ascending(Keys(Fresh(list)))
  {
    if list != [] {
      var init, last := list[..|list| - 1], list[|list| - 1];
      assert Keys(init) == Keys(list)[..|init|];
      FreshAscends(init);
      FreshMembers(init);
      forall i | 0 <= i < |Fresh(init)|
        ensures IsNewer(last.seqNum, Fresh(init)[i].seqNum)
      {
        assert Fresh(init)[i] in init;
        var j :| 0 <= j < |init| && init[j] == Fresh(init)[i];
        assert IsNewer(Keys(list)[|init|], Keys(list)[j]);
      }
    }
  }

  // ---- Only what was sent goes up -----------------------------------------------------------

  ghost predicate AllWereSent(sent: Stream, ps: seq<Packet>) {
    forall p :: p in ps ==> exists u :: u in sent && sent[u] == p
  }

  lemma MarkKeeps(b: int, sent: Stream, ssrc: SsrcBytes, st: State)
    requires Invariant(b, sent, ssrc, st)
    ensures Invariant(b, sent, ssrc, st.(recovered := MarkAll(st.recovered))) && AllReturned(MarkAll(st.recovered))
  {
    hide FecWellFormed, FecPacketAuthentic, Sorted, WasSent;
    assert Keys(MarkAll(st.recovered)) == Keys(st.recovered);
  }

  // The numbers of what a call hands up: of the front media packet, and of the entries
  // that were not marked.
  function UpNumbers(st: State, batch: seq<ReceivedPacket>): seq<u16> {
    FrontNumber(batch) + ListNumbers(st, batch)
  }

  function FrontNumber(batch: seq<ReceivedPacket>): seq<u16> {
    if batch != [] && batch[0].ReceivedMedia? then [batch[0].seqNum] else []
  }

  function ListNumbers(st: State, batch: seq<ReceivedPacket>): seq<u16> {
    if batch == [] then Keys(Fresh(st.recovered)) else Keys(Fresh(Decode(st, batch).recovered))
  }

  ghost predicate SentUnder(b: int, sent: Stream, keys: seq<u16>, ps: seq<Packet>) {
    |keys| == |ps| && forall i :: 0 <= i < |ps| ==> WasSent(b, sent, keys[i], ps[i])
  }

  lemma FreshWereSent(b: int, sent: Stream, list: seq<RecoveredPacket>)
    requires RecoveredAuthentic(b, sent, list)
    ensures SentUnder(b, sent, Keys(Fresh(list)), Datas(Fresh(list)))
  {
    hide Fresh, WasSent;
    FreshMembers(list);
    forall i | 0 <= i < |Fresh(list)|
      ensures WasSent(b, sent, Fresh(list)[i].seqNum, Fresh(list)[i].pkt)
    {
      assert Fresh(list)[i] in list;
    }
  }

  ghost predicate CallLegal(b: int, sent: Stream, ssrc: SsrcBytes, batch: seq<ReceivedPacket>) {
    forall i :: 0 <= i < |batch| ==> ReceivedLive(b, batch[i]) && ReceivedAuthentic(b, sent, ssrc, batch[i])
  }

  // One call keeps the decoder's invariant, leaves nothing to hand up, and hands up
  // packets that were sent, under their own numbers.
  lemma ProcessKeeps(b: int, sent: Stream, ssrc: SsrcBytes, st: State, batch: seq<ReceivedPacket>)
    requires GoodStream(sent, ssrc) && Invariant(b, sent, ssrc, st) && CallLegal(b, sent, ssrc, batch)
    ensures var (next, up) := Process(st, batch);
      Invariant(b, sent, ssrc, next) && AllReturned(next.recovered) && SentUnder(b, sent, UpNumbers(st, batch), up)
  {
    hide GoodStream, Ordered, ReceivedLive, FecSent, Decode, Fresh;
    var decoded := if batch == [] then st else Decode(st, batch);
    if batch != [] {
      DecodeOrdered(b, st, batch);
      DecodeAuthentic(b, sent, ssrc, st, batch);
    }
    MarkKeeps(b, sent, ssrc, decoded);
    FreshWereSent(b, sent, decoded.recovered);
    assert SentUnder(b, sent, FrontNumber(batch), FrontMedia(batch));
  }

  // Whole runs of the receiver.

  ghost predicate LegalReceiverRun(b: int, sent: Stream, ssrc: SsrcBytes, st: State, calls: seq<Call>)
    decreases |calls|
  {
    calls == [] ||
      var c := calls[0];
      && StaysLive(b, c.base, st) && CallLegal(c.base, sent, ssrc, c.batch)
      && LegalReceiverRun(c.base, sent, ssrc, Process(st, c.batch).0, calls[1..])
  }

  function HandedUp(st: State, calls: seq<Call>): seq<Packet>
    decreases |calls|
  {
    if calls == [] then []
    else
      var (next, up) := Process(st, calls[0].batch);
      up + HandedUp(next, calls[1..])
  }

  lemma SentUnderWereSent(b: int, sent: Stream, keys: seq<u16>, ps: seq<Packet>)
    requires SentUnder(b, sent, keys, ps)
    ensures AllWereSent(sent, ps)
  {
    hide Unwrap;
    forall p | p in ps
      ensures exists u :: u in sent && sent[u] == p
    {
      var i :| 0 <= i < |ps| && ps[i] == p;
      assert Unwrap(b, keys[i]) in sent;
    }
  }

  // Whatever is handed up in a whole run was sent.
  lemma {:induction false} RunHandsUpWhatWasSent(b: int, sent: Stream, ssrc: SsrcBytes, st: State, calls: seq<Call>)
    requires GoodStream(sent, ssrc) && Invariant(b, sent, ssrc, st) && LegalReceiverRun(b, sent, ssrc, st, calls)
    ensures AllWereSent(sent, HandedUp(st, calls))
    decreases |calls|
  {
    hide GoodStream, Invariant, Process, CallLegal, StaysLive, SentUnder;
    if calls != [] {
      var c := calls[0];
      MoveWindow(b, c.base, sent, ssrc, st);
      ProcessKeeps(c.base, sent, ssrc, st, c.batch);
      SentUnderWereSent(c.base, sent, UpNumbers(st, c.batch), Process(st, c.batch).1);
      RunHandsUpWhatWasSent(c.base, sent, ssrc, Process(st, c.batch).0, calls[1..]);
    }
  }

  // ---- What goes up in a call, exactly --------------------------------------------------------

  ghost predicate HasMedia(batch: seq<ReceivedPacket>, s: u16) {
    exists i :: 0 <= i < |batch| && batch[i].ReceivedMedia? && batch[i].seqNum == s
  }

  lemma HasMediaLast(batch: seq<ReceivedPacket>, s: u16)
    requires batch != []
    ensures var n := |batch| - 1;
      HasMedia(batch, s) <==> HasMedia(batch[..n], s) || (batch[n].ReceivedMedia? && batch[n].seqNum == s)
  {
    var n := |batch| - 1;
    if HasMedia(batch[..n], s) {
      var i :| 0 <= i < n && batch[..n][i].ReceivedMedia? && batch[..n][i].seqNum == s;
      assert batch[i] == batch[..n][i];
    }
  }

  // Inserting adds the media packets of the batch and forgets nothing.
  lemma {:induction false} InsertAllKeys(st: State, batch: seq<ReceivedPacket>, s: u16)
    ensures s in Keys(InsertAll(st, batch).recovered) <==> s in Keys(st.recovered) || HasMedia(batch, s)
  {
    if batch != [] {
      InsertAllKeys(st, batch[..|batch| - 1], s);
      HasMediaLast(batch, s);
      hide HasMedia, InsertOne;
      InsertOneKeys(InsertAll(st, batch[..|batch| - 1]), batch[|batch| - 1], s);
    }
  }

  lemma InsertOneKeys(st: State, rx: ReceivedPacket, s: u16)
    ensures s in Keys(InsertOne(st, rx).recovered) <==> s in Keys(st.recovered) || (rx.ReceivedMedia? && s == rx.seqNum)
  {
    hide CoveredSeqs, NewFec, CoverAll, InsertAt, PushFecSorted;
    if rx.ReceivedMedia? {
      var r := RecoveredPacket(rx.seqNum, false, true, rx.media);
      PushSortedKeys(st.recovered, r);
    }
  }

  lemma MissedIsNotListed(b: int, st: State, f: FecPacket, s: u16)
    requires Ordered(b, st) && f in st.fecs && s in MissSet(f)
    ensures Live(b, s) && s !in Keys(st.recovered)
  {
    hide CoveredSeqs, Live, Sorted, Missing;
    var i :| 0 <= i < |st.fecs| && st.fecs[i] == f;
    MissingIsCovered(f.protectedList, s);
    var j :| 0 <= j < |f.protectedList| && f.protectedList[j].seqNum == s && f.protectedList[j].pkt.None?;
    assert FecWellFormed(b, f) && Linked(f, Keys(st.recovered));
    assert ProtectedKeys(f.protectedList)[j] == s;
  }

  // What a call asks for: the state that the call before has left, and live numbers.
  ghost predicate Callable(b: int, st: State, batch: seq<ReceivedPacket>) {
    && Ordered(b, st) && |st.recovered| <= MAX_MEDIA_PACKETS && AllReturned(st.recovered)
    && forall i :: 0 <= i < |batch| ==> ReceivedLive(b, batch[i])
  }

  // The numbers that a call recovers.
  ghost function NewsOf(st: State, batch: seq<ReceivedPacket>): set<u16>
    requires batch != []
  {
    NewSet(News(Inserted(st, batch), 0))
  }

  // What is recovered is missing: neither was it in the list the call starts from, nor is
  // it a media packet of the batch.
  lemma NewsAreMissing(b: int, st: State, batch: seq<ReceivedPacket>, s: u16)
    requires batch != [] && Callable(b, st, batch) && s in NewsOf(st, batch)
    ensures Live(b, s) && s !in Keys(Inserted(st, batch).recovered)
    ensures s !in Keys(ResetIfFar(st, batch).recovered) && !HasMedia(batch, s)
  {
    var all := InsertAll(ResetIfFar(st, batch), batch);
    assert Ordered(b, all) && Ordered(b, Inserted(st, batch)) by {
      hide FecWellFormed, ReceivedLive;
      InsertAllOrdered(b, ResetIfFar(st, batch), batch);
      InsertedOrdered(b, st, batch);
    }
    assert AllDistinct(Inserted(st, batch).fecs) by { hide AllDistinct, Live; ProtectedDistinct(b, Inserted(st, batch)); }
    InsertAllKeys(ResetIfFar(st, batch), batch, s);
    hide News, Ordered, AllDistinct, InsertAll, MissSet, HasMedia, Live, ReceivedLive, ResetIfFar;
    NewsMissed(Inserted(st, batch), 0);
    var r :| r in News(Inserted(st, batch), 0) && r.seqNum == s;
    var f :| f in Inserted(st, batch).fecs && s in MissSet(f);
    MissedIsNotListed(b, all, f, s);
    MissedIsNotListed(b, Inserted(st, batch), f, s);
  }

  lemma KeysMember(list: seq<RecoveredPacket>, s: u16)
    ensures s in Keys(list) <==> exists r :: r in list && r.seqNum == s
  {
    if s in Keys(list) {
      var i :| 0 <= i < |list| && Keys(list)[i] == s;
      assert list[i] in list;
    }
    if exists r :: r in list && r.seqNum == s {
      var r :| r in list && r.seqNum == s;
      var i :| 0 <= i < |list| && list[i] == r;
      assert Keys(list)[i] == s;
    }
  }

  // From the list go up exactly the numbers that are recovered and kept.
  lemma ListNumbersAre(b: int, st: State, batch: seq<ReceivedPacket>, s: u16)
    requires batch != [] && Callable(b, st, batch)
    ensures s in ListNumbers(st, batch) <==> s in NewsOf(st, batch) && s in Keys(Decode(st, batch).recovered)
  {
    var list := Decode(st, batch).recovered;
    UnmarkedAreNews(st, batch);
    FreshMembers(list);
    KeysMember(list, s);
    KeysMember(Fresh(list), s);
    KeysMember(Inserted(st, batch).recovered, s);
    AttemptMembers(Inserted(st, batch), 0);
    if s in NewsOf(st, batch) {
      NewsAreMissing(b, st, batch, s);
    }
    hide News, Fresh, Decode, Inserted, Callable;
  }

  // Each once, and none that was in the list when the call began or is a media packet of
  // the batch.
  lemma ListNumbersAreNew(b: int, st: State, batch: seq<ReceivedPacket>)
    requires batch != [] && Callable(b, st, batch)
    ensures Ascending(ListNumbers(st, batch))
    ensures forall s :: s in ListNumbers(st, batch) ==> s !in Keys(ResetIfFar(st, batch).recovered) && !HasMedia(batch, s)
  {
    DecodeOrdered(b, st, batch);
    FreshAscends(Decode(st, batch).recovered);
    hide Decode, HasMedia, ResetIfFar, Callable, NewsOf, Ascending, Fresh;
    forall s | s in ListNumbers(st, batch)
      ensures s !in Keys(ResetIfFar(st, batch).recovered) && !HasMedia(batch, s)
    {
      ListNumbersAre(b, st, batch, s);
      NewsAreMissing(b, st, batch, s);
    }
  }

  // The least set closed under "an FEC packet with one missing member yields it".
  ghost predicate Least(fecs: seq<FecPacket>, t: set<u16>) {
    Closed(fecs, t) && forall t' :: Closed(fecs, t') ==> t <= t'
  }

  ghost function Newer(all: set<int>, u: int): set<int> { set v | v in all && v > u }

  // Being among the newest is having fewer than 48 newer ones.
  lemma NewestCount(b: int, keys: seq<u16>, all: set<int>, u: int)
    requires NewestOf(b, keys, all) && u in all
    ensures u in Numbers(b, keys) <==> |Newer(all, u)| < MAX_MEDIA_PACKETS
  {
    hide Unwrap, Live, IsNewer;
    NumbersCount(b, keys);
    var kept := Numbers(b, keys);
    if u in kept {
      forall v | v in Newer(all, u)
        ensures v in kept - {u}
      {
        var x :| x in keys && Unwrap(b, x) == u;
      }
      SizeBound(Newer(all, u), kept - {u});
    } else {
      forall v | v in kept
        ensures v in Newer(all, u)
      {
        var x :| x in keys && Unwrap(b, x) == v;
      }
      SizeBound(kept, Newer(all, u));
    }
  }

  ghost function NumbersIn(b: int, t: set<u16>): set<int> { set x | x in t :: Unwrap(b, x) }

  lemma NewsNumbers(b: int, news: seq<RecoveredPacket>)
    ensures NewNumbers(b, news) == NumbersIn(b, NewSet(news))
  {
    hide Unwrap;
    NewKeys(news);
  }

  lemma LeastIsNews(b: int, st: State, batch: seq<ReceivedPacket>, t: set<u16>)
    requires batch != [] && Callable(b, st, batch) && Least(Inserted(st, batch).fecs, t)
    ensures t == NewsOf(st, batch)
    ensures NewestOf(b, Keys(Decode(st, batch).recovered), Numbers(b, Keys(Inserted(st, batch).recovered)) + NumbersIn(b, t))
  {
    InsertedOrdered(b, st, batch);
    hide FecWellFormed, Linked, Sorted, Closed, NewestOf, Numbers, News, ReceivedLive, InsertAll, ResetIfFar;
    AttemptRecoversLeastSet(b, Inserted(st, batch));
    NewsNumbers(b, News(Inserted(st, batch), 0));
  }

  lemma InNumbersIn(b: int, t: set<u16>, s: u16)
    ensures s in t <==> Unwrap(b, s) in NumbersIn(b, t)
  {
    if Unwrap(b, s) in NumbersIn(b, t) {
      var x :| x in t && Unwrap(b, x) == Unwrap(b, s);
      SameNumber(b, x, s);
    }
  }

  // A number goes up in a call if and only if it is that of the front media packet, or it
  // is not in the list that the call starts from, is in the least closed set of the FEC
  // packets after inserting, and fewer than 48 of the listed and the recovered numbers
  // are newer. So a number goes up again exactly then, whether it went up before or not.
  lemma GoesUpExactly(b: int, st: State, batch: seq<ReceivedPacket>, t: set<u16>, s: u16)
    requires batch != [] && Callable(b, st, batch) && Live(b, s) && Least(Inserted(st, batch).fecs, t)
    ensures s in UpNumbers(st, batch) <==>
      || s in FrontNumber(batch)
      || (&& s !in Keys(ResetIfFar(st, batch).recovered) && s in t
          && |Newer(Numbers(b, Keys(Inserted(st, batch).recovered)) + NumbersIn(b, t), Unwrap(b, s))| < MAX_MEDIA_PACKETS)
  {
    var kept, all := Keys(Decode(st, batch).recovered), Numbers(b, Keys(Inserted(st, batch).recovered)) + NumbersIn(b, t);
    LeastIsNews(b, st, batch, t);
    ListNumbersAre(b, st, batch, s);
    if s in t {
      NewsAreMissing(b, st, batch, s);
      InNumbersIn(b, t, s);
      NewestCount(b, kept, all, Unwrap(b, s));
      NumbersOf(b, kept, s);
    }
    hide NewestOf, Newer, NewsOf, Numbers, NumbersIn, Decode, ListNumbers, Least, Callable, Inserted;
  }

  // ---- Over whole runs --------------------------------------------------------------------------

  function StateBefore(st: State, calls: seq<Call>, k: nat): State
    requires k <= |calls|
    decreases k
  {
    if k == 0 then st else StateBefore(Process(st, calls[0].batch).0, calls[1..], k - 1)
  }

  // At every call of a legal run everything that the call asks for holds.
  lemma {:induction false} Reached(b: int, sent: Stream, ssrc: SsrcBytes, st: State, calls: seq<Call>, k: nat)
    requires GoodStream(sent, ssrc) && Invariant(b, sent, ssrc, st) && AllReturned(st.recovered)
    requires LegalReceiverRun(b, sent, ssrc, st, calls) && k < |calls|
    ensures var before, c := StateBefore(st, calls, k), calls[k];
      && Invariant(c.base, sent, ssrc, before) && AllReturned(before.recovered) && CallLegal(c.base, sent, ssrc, c.batch)
      && Callable(c.base, before, c.batch)
    decreases k
  {
    hide GoodStream, Authentic, Ordered, Process, ReceivedLive, ReceivedAuthentic, StaysLive;
    var c := calls[0];
    MoveWindow(b, c.base, sent, ssrc, st);
    if k > 0 {
      ProcessKeeps(c.base, sent, ssrc, st, c.batch);
      Reached(c.base, sent, ssrc, Process(st, c.batch).0, calls[1..], k - 1);
    }
  }

  // In every call of a legal run, what goes up from the list is new to the list.
  lemma RunHandsUpNew(b: int, sent: Stream, ssrc: SsrcBytes, st: State, calls: seq<Call>, k: nat)
    requires GoodStream(sent, ssrc) && Invariant(b, sent, ssrc, st) && AllReturned(st.recovered)
    requires LegalReceiverRun(b, sent, ssrc, st, calls) && k < |calls| && calls[k].batch != []
    ensures var before, batch := StateBefore(st, calls, k), calls[k].batch;
      && Ascending(ListNumbers(before, batch))
      && (forall s :: s in ListNumbers(before, batch) ==> s !in Keys(ResetIfFar(before, batch).recovered) && !HasMedia(batch, s))
  {
    Reached(b, sent, ssrc, st, calls, k);
    hide Invariant, LegalReceiverRun, Callable, ListNumbers;
    ListNumbersAreNew(calls[k].base, StateBefore(st, calls, k), calls[k].batch);
  }

  // In every call of a legal run, exactly these numbers go up.
  lemma RunHandsUpExactly(b: int, sent: Stream, ssrc: SsrcBytes, st: State, calls: seq<Call>, k: nat, t: set<u16>, s: u16)
    requires GoodStream(sent, ssrc) && Invariant(b, sent, ssrc, st) && AllReturned(st.recovered)
    requires LegalReceiverRun(b, sent, ssrc, st, calls) && k < |calls| && calls[k].batch != [] && Live(calls[k].base, s)
    requires Least(Inserted(StateBefore(st, calls, k), calls[k].batch).fecs, t)
    ensures var b', before, batch := calls[k].base, StateBefore(st, calls, k), calls[k].batch;
      s in UpNumbers(before, batch) <==>
      || s in FrontNumber(batch)
      || (&& s !in Keys(ResetIfFar(before, batch).recovered) && s in t
          && |Newer(Numbers(b', Keys(Inserted(before, batch).recovered)) + NumbersIn(b', t), Unwrap(b', s))| < MAX_MEDIA_PACKETS)
  {
    Reached(b, sent, ssrc, st, calls, k);
    hide Invariant, LegalReceiverRun, Callable, UpNumbers;
    GoesUpExactly(calls[k].base, StateBefore(st, calls, k), calls[k].batch, t, s);
  }

  // ---- Again only after a reset --------------------------------------------------------------------

  // The list holds the number, or is full of newer ones.
  ghost predicate Settled(b: int, keys: seq<u16>, u: int) {
    u in Numbers(b, keys) || (|keys| == MAX_MEDIA_PACKETS && forall v :: v in Numbers(b, keys) ==> u < v)
  }

  // It stays so when more numbers come and the newest are kept, and a number that the
  // list does not hold does not come back.
  lemma SettledStays(b: int, keys: seq<u16>, kept: seq<u16>, all: set<int>, u: int)
    requires Sorted(b, keys) && Settled(b, keys, u) && NewestOf(b, kept, all) && Numbers(b, keys) <= all
    ensures Settled(b, kept, u) && (u !in Numbers(b, keys) ==> u !in Numbers(b, kept))
  {
    hide Unwrap, Live, IsNewer;
    NumbersCount(b, keys);
    NumbersCount(b, kept);
    var old_, new_ := Numbers(b, keys), Numbers(b, kept);
    if u in old_ {
      assert u !in new_ ==> forall v :: v in new_ ==> u < v;
    } else {
      if |kept| < MAX_MEDIA_PACKETS {
        SizeBound(old_, new_);
      }
      forall v | v in new_
        ensures u < v
      {
        if v <= u {
          NoneNewer(b, kept, all, old_, v);
          SizeBound(old_, new_ - {v});
        }
      }
    }
  }

  lemma NoneNewer(b: int, kept: seq<u16>, all: set<int>, some: set<int>, v: int)
    requires NewestOf(b, kept, all) && some <= all && v in Numbers(b, kept) && forall y :: y in some ==> v < y
    ensures some <= Numbers(b, kept) - {v}
  {
    hide Unwrap, Sorted;
    var x :| x in kept && Unwrap(b, x) == v;
    forall y | y in some
      ensures y in Numbers(b, kept) - {v}
    {
      assert y !in Numbers(b, kept) ==> y < Unwrap(b, x);
    }
  }

  lemma NewestIsNewest(b: int, list: seq<RecoveredPacket>)
    requires Sorted(b, Keys(list))
    ensures NewestOf(b, Keys(Newest(list)), Numbers(b, Keys(list)))
  {
    hide Sorted, NewestOf;
    NewestKeys(list);
    SuffixIsNewest(b, Keys(list), |list| - |Newest(list)|);
  }

  lemma SuffixIsNewest(b: int, keys: seq<u16>, n: nat)
    requires Sorted(b, keys) && n == (if |keys| > MAX_MEDIA_PACKETS then |keys| - MAX_MEDIA_PACKETS else 0)
    ensures NewestOf(b, keys[n..], Numbers(b, keys))
  {
    hide Unwrap, Sorted;
    SuffixSorted(b, keys, n);
    forall u, x | u in Numbers(b, keys) && u !in Numbers(b, keys[n..]) && x in keys[n..]
      ensures u < Unwrap(b, x)
    {
      var y :| y in keys && Unwrap(b, y) == u;
      EarlierIsOlder(b, keys, n, y, x);
    }
    assert forall x :: x in keys[n..] ==> x in keys;
    assert n == 0 ==> keys[n..] == keys;
  }

  lemma EarlierIsOlder(b: int, keys: seq<u16>, n: nat, y: u16, x: u16)
    requires Sorted(b, keys) && n <= |keys| && y in keys && y !in keys[n..] && x in keys[n..]
    ensures Unwrap(b, y) < Unwrap(b, x)
  {
    assert keys == keys[..n] + keys[n..];
    var i :| 0 <= i < n && keys[..n][i] == y;
    var j :| 0 <= j < |keys[n..]| && keys[n..][j] == x;
    assert IsNewer(keys[n + j], keys[i]) && keys[n + j] == x && keys[i] == y;
    hide Unwrap, IsNewer;
    ComparatorsAgree(b, y, x);
  }

  // After a call the list holds the newest of what was listed, inserted and recovered.
  lemma CallKeepsNewest(b: int, st: State, batch: seq<ReceivedPacket>)
    requires batch != [] && Callable(b, st, batch)
    ensures NewestOf(b, Keys(Decode(st, batch).recovered),
                     Numbers(b, Keys(InsertAll(ResetIfFar(st, batch), batch).recovered)) + NewNumbers(b, News(Inserted(st, batch), 0)))
    ensures Sorted(b, Keys(st.recovered))
  {
    var all := InsertAll(ResetIfFar(st, batch), batch);
    assert Ordered(b, all) && WellLinked(b, Inserted(st, batch)) by {
      hide FecWellFormed, ReceivedLive, Linked;
      InsertAllOrdered(b, ResetIfFar(st, batch), batch);
      InsertedOrdered(b, st, batch);
    }
    assert Sorted(b, Keys(all.recovered));
    hide Ordered, WellLinked, NewestOf, Numbers, News, InsertAll, Sorted;
    NewestIsNewest(b, all.recovered);
    AttemptKeepsNewest(b, Inserted(st, batch), 0, Numbers(b, Keys(all.recovered)));
  }

  predicate Resets(st: State, batch: seq<ReceivedPacket>) { batch != [] && ResetIfFar(st, batch) != st }

  lemma ProcessKeys(st: State, batch: seq<ReceivedPacket>)
    ensures Keys(Process(st, batch).0.recovered) == Keys(if batch == [] then st.recovered else Decode(st, batch).recovered)
  {
    hide Decode;
  }

  lemma {:induction false} NothingFresh(list: seq<RecoveredPacket>)
    requires AllReturned(list)
    ensures Fresh(list) == []
  {
    if list != [] {
      NothingFresh(list[..|list| - 1]);
    }
  }

  lemma NothingWaits(st: State)
    requires AllReturned(st.recovered)
    ensures UpNumbers(st, []) == []
  {
    NothingFresh(st.recovered);
  }

  // What goes up is settled afterwards.
  lemma UpIsSettled(b: int, st: State, batch: seq<ReceivedPacket>, s: u16)
    requires Callable(b, st, batch) && s in UpNumbers(st, batch)
    ensures Settled(b, Keys(Process(st, batch).0.recovered), Unwrap(b, s))
  {
    ProcessKeys(st, batch);
    if batch == [] {
      NothingWaits(st);
    } else {
      var kept, start := Keys(Decode(st, batch).recovered), ResetIfFar(st, batch);
      CallKeepsNewest(b, st, batch);
      ListNumbersAre(b, st, batch, s);
      InsertAllKeys(start, batch, s);
      assert s in FrontNumber(batch) ==> HasMedia(batch, s) by { assert batch[0].ReceivedMedia? && batch[0].seqNum == s ==> HasMedia(batch, s); }
      hide Process, Decode, InsertAll, ListNumbers, Callable, HasMedia, NewsOf, Sorted, FrontNumber, ResetIfFar;
      assert Unwrap(b, s) in Numbers(b, Keys(InsertAll(start, batch).recovered)) || Unwrap(b, s) in Numbers(b, kept);
      KeptIsSettled(b, kept, Numbers(b, Keys(InsertAll(start, batch).recovered)) + NewNumbers(b, News(Inserted(st, batch), 0)), Unwrap(b, s));
    }
  }

  lemma KeptIsSettled(b: int, kept: seq<u16>, all: set<int>, u: int)
    requires NewestOf(b, kept, all) && u in all + Numbers(b, kept)
    ensures Settled(b, kept, u)
  {
    hide Unwrap, Sorted;
  }

  // Without a reset, what was settled stays so, and does not go up from the list.
  lemma SettledCall(b: int, st: State, batch: seq<ReceivedPacket>, u: int)
    requires Callable(b, st, batch) && Settled(b, Keys(st.recovered), u) && !Resets(st, batch)
    ensures Settled(b, Keys(Process(st, batch).0.recovered), u)
    ensures forall s :: s in ListNumbers(st, batch) ==> Unwrap(b, s) != u
  {
    ProcessKeys(st, batch);
    if batch == [] {
      NothingWaits(st);
    } else {
      var keys, kept, inserted := Keys(st.recovered), Keys(Decode(st, batch).recovered), Keys(InsertAll(st, batch).recovered);
      CallKeepsNewest(b, st, batch);
      forall x | x in keys
        ensures x in inserted
      {
        InsertAllKeys(st, batch, x);
      }
      hide Unwrap;
      assert Numbers(b, keys) <= Numbers(b, inserted);
      SettledStays(b, keys, kept, Numbers(b, inserted) + NewNumbers(b, News(Inserted(st, batch), 0)), u);
      forall s | s in ListNumbers(st, batch)
        ensures Unwrap(b, s) != u
      {
        ListNumbersAre(b, st, batch, s);
        NewsAreMissing(b, st, batch, s);
        ListedNumber(b, st, s);
        assert Unwrap(b, s) in Numbers(b, kept);
      }
    }
  }

  lemma ListedNumber(b: int, st: State, s: u16)
    requires Ordered(b, st) && Live(b, s)
    ensures s in Keys(st.recovered) <==> Unwrap(b, s) in Numbers(b, Keys(st.recovered))
  {
    hide FecWellFormed, Linked;
    NumbersOf(b, Keys(st.recovered), s);
  }

  // Over a legal run, in calls without a reset, a settled number never goes up from the
  // list.
  ghost predicate NoReset(st: State, calls: seq<Call>, n: nat)
    requires n <= |calls|
  {
    forall i :: 0 <= i < n ==> !Resets(StateBefore(st, calls, i), calls[i].batch)
  }

  lemma NoResetTail(st: State, calls: seq<Call>, n: nat)
    requires 0 < n <= |calls| && NoReset(st, calls, n)
    ensures !Resets(st, calls[0].batch) && NoReset(Process(st, calls[0].batch).0, calls[1..], n - 1)
  {
    hide Process, Resets;
    assert StateBefore(st, calls, 0) == st;
    forall i | 0 <= i < n - 1
      ensures !Resets(StateBefore(Process(st, calls[0].batch).0, calls[1..], i), calls[1..][i].batch)
    {
      assert !Resets(StateBefore(st, calls, i + 1), calls[i + 1].batch);
    }
  }

  lemma SettledMoves(b: int, b': int, st: State, u: int)
    requires StaysLive(b, b', st) && Settled(b, Keys(st.recovered), u)
    ensures Settled(b', Keys(st.recovered), u)
  {
    hide Unwrap;
    var keys := Keys(st.recovered);
    assert Numbers(b', keys) == Numbers(b, keys);
  }

  lemma {:induction false} SettledRun(b: int, sent: Stream, ssrc: SsrcBytes, st: State, calls: seq<Call>, k: nat, u: int)
    requires GoodStream(sent, ssrc) && Invariant(b, sent, ssrc, st) && AllReturned(st.recovered)
    requires LegalReceiverRun(b, sent, ssrc, st, calls) && k < |calls| && NoReset(st, calls, k + 1)
    requires Settled(b, Keys(st.recovered), u)
    ensures forall s :: s in ListNumbers(StateBefore(st, calls, k), calls[k].batch) ==> Unwrap(calls[k].base, s) != u
    decreases k
  {
    hide GoodStream, Authentic, Ordered, Process, ReceivedLive, ReceivedAuthentic, StaysLive, ListNumbers, NoReset, Settled, Resets, Unwrap;
    var c := calls[0];
    MoveWindow(b, c.base, sent, ssrc, st);
    SettledMoves(b, c.base, st, u);
    NoResetTail(st, calls, k + 1);
    SettledCall(c.base, st, c.batch, u);
    if k > 0 {
      ProcessKeeps(c.base, sent, ssrc, st, c.batch);
      SettledRun(c.base, sent, ssrc, Process(st, c.batch).0, calls[1..], k - 1, u);
    }
  }

  // A number that has gone up in some call goes up from the list in a later one only if
  // the decoder is reset in between, or by that call.
  lemma {:induction false} AgainOnlyAfterReset(b: int, sent: Stream, ssrc: SsrcBytes, st: State, calls: seq<Call>, j: nat, k: nat, s: u16, s': u16)
    requires GoodStream(sent, ssrc) && Invariant(b, sent, ssrc, st) && AllReturned(st.recovered)
    requires LegalReceiverRun(b, sent, ssrc, st, calls) && j < k < |calls|
    requires s in UpNumbers(StateBefore(st, calls, j), calls[j].batch)
    requires s' in ListNumbers(StateBefore(st, calls, k), calls[k].batch)
    requires Unwrap(calls[j].base, s) == Unwrap(calls[k].base, s')
    ensures exists i :: j < i <= k && Resets(StateBefore(st, calls, i), calls[i].batch)
    decreases j
  {
    hide GoodStream, Authentic, Ordered, Process, ReceivedLive, ReceivedAuthentic, StaysLive, ListNumbers, UpNumbers, Settled, Resets, Unwrap;
    var c, next := calls[0], Process(st, calls[0].batch).0;
    MoveWindow(b, c.base, sent, ssrc, st);
    ProcessKeeps(c.base, sent, ssrc, st, c.batch);
    if j > 0 {
      AgainOnlyAfterReset(c.base, sent, ssrc, next, calls[1..], j - 1, k - 1, s, s');
      var i :| j - 1 < i <= k - 1 && Resets(StateBefore(next, calls[1..], i), calls[1..][i].batch);
      assert Resets(StateBefore(st, calls, i + 1), calls[i + 1].batch);
    } else {
      UpIsSettled(c.base, st, c.batch, s);
      if NoReset(next, calls[1..], k) {
        SettledRun(c.base, sent, ssrc, next, calls[1..], k - 1, Unwrap(c.base, s));
        assert false;
      } else {
        var i :| 0 <= i < k && Resets(StateBefore(next, calls[1..], i), calls[1..][i].batch);
        assert Resets(StateBefore(st, calls, i + 1), calls[i + 1].batch);
      }
    }
  }
}
