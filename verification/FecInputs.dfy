// Runs of the receiver on packets without payload: two in which a number goes up twice,
// from a duplicate and from the recovered list after a reset, and one in which a lost
// packet is not repaired because the numbers wrap around.
module FecInputs {
  import Options
  import opened Bytes
  import opened SeqNum
  import opened ParityCode
  import opened FecEncoder
  import opened FecGenerator
  import opened FecDecoder
  import opened FecInvariant
  import opened FecAuthentic
  import opened FecReceiver
  import opened FecDelivery
  import opened FecRepair

  const SSRC: SsrcBytes := [0, 0, 0, 0]

  const EMPTY: State := State([], [])

  function Plain(u: u16): (p: MediaPacket)
    ensures |p| == RTP_HEADER_SIZE
  {
    [0x80, 0, Hi(u), Lo(u), 0, 0, 0, 0, 0, 0, 0, 0]
  }

  ghost function Sent(): Stream { map u: int | 0 <= u < 100 :: Plain(u) }

  lemma PlainStream()
    ensures GoodStream(Sent(), SSRC)
  {
    forall u | u in Sent()
      ensures Version2(Sent()[u]) && Carries(Sent()[u], u % WRAP) && Ssrc(Sent()[u]) == SSRC
    {
      hide ByteOf;
      assert u % WRAP == u;
    }
  }

  // The FEC packet that protects packet 0 alone.
  const SINGLE_FEC: Packet := [0, 0, 0, 0, 0, 0, 0, 0, 0, 0, 0, 0, 0x80, 0]

  lemma {:induction false} SingleOffsets(k: nat)
    requires 1 <= k <= 16
    ensures ProtectedOffsets(SINGLE_FEC, k) == [0]
  {
    if k == 1 {
      assert MaskBit(SINGLE_FEC, 0);
      assert ProtectedOffsets(SINGLE_FEC, 0) == [];
    } else {
      SingleOffsets(k - 1);
      assert !MaskBit(SINGLE_FEC, k - 1);
    }
  }

  lemma SingleCovers()
    ensures CoveredSeqs(SINGLE_FEC) == [0] && !LBit(SINGLE_FEC)
  {
    SingleOffsets(16);
    assert ParseSequenceNumber(SINGLE_FEC) == 0;
  }

  lemma SingleIsZero(j: nat)
    ensures FecBitString(SINGLE_FEC, j) == 0 && ProtectionLength(SINGLE_FEC) == 0
  {
    assert U16(0, 0) == 0;
    assert ProtectionLength(SINGLE_FEC) == 0;
    hide ProtectionLength, U16, LBit;
  }

  lemma PlainIsZero(j: nat)
    ensures BitString(Plain(0), j) == 0
  {
    assert Hi(0) == 0 && Lo(0) == 0;
    hide ByteOf, Hi, Lo;
  }

  lemma ParityOfOne(p: MediaPacket, j: nat)
    ensures Parity([p], j) == Xor(0, BitString(p, j))
  {
    assert [p][..0] == [];
    hide BitString, Xor;
  }

  lemma SingleProtects()
    ensures Protects(SINGLE_FEC, [Plain(0)])
  {
    SingleCovers();
    hide FecBitString, Parity, BitString, Plain, LBit, CoveredSeqs, ProtectionLength;
    forall j: nat | 0 <= j
      ensures FecBitString(SINGLE_FEC, j) == Parity([Plain(0)], j)
    {
      SingleIsZero(j);
      PlainIsZero(j);
      ParityOfOne(Plain(0), j);
      XorZero();
    }
    SingleIsZero(0);
  }

  lemma SingleIsSent()
    ensures FecSent(0, Sent(), SINGLE_FEC) && AllLive(0, CoveredSeqs(SINGLE_FEC))
  {
    SingleCovers();
    SingleProtects();
    hide CoveredSeqs, Protects, Plain;
    assert Unwrap(0, 0) == 0;
    assert SentFor(0, Sent(), [0]) == [Plain(0)];
  }

  lemma MediaLegal(u: u16)
    requires u < 100
    ensures ReceivedLive(0, ReceivedMedia(u, Plain(u))) && ReceivedAuthentic(0, Sent(), SSRC, ReceivedMedia(u, Plain(u)))
  {
    assert Unwrap(0, u) == u;
  }

  // ---- Calls without FEC packets -----------------------------------------------------------

  function Entry(u: u16): RecoveredPacket { RecoveredPacket(u, false, true, Plain(u)) }

  // A call that inserts what is marked already hands up its front media packet only.
  lemma QuietCall(st: State, batch: seq<ReceivedPacket>, list: seq<RecoveredPacket>)
    requires batch != [] && InsertAll(ResetIfFar(st, batch), batch) == State([], list) && |list| <= MAX_MEDIA_PACKETS && AllReturned(list)
    ensures Process(st, batch) == (State([], list), FrontMedia(batch))
  {
    assert Decode(st, batch) == State([], list);
    hide Decode;
    NothingFresh(list);
    assert MarkAll(list) == list;
    assert FrontMedia(batch) + [] == FrontMedia(batch) && Datas([]) == [];
  }

  lemma LegalStep(st: State, batch: seq<ReceivedPacket>, rest: seq<Call>)
    requires st.fecs == [] && AllLive(0, Keys(st.recovered)) && CallLegal(0, Sent(), SSRC, batch)
    requires LegalReceiverRun(0, Sent(), SSRC, Process(st, batch).0, rest)
    ensures LegalReceiverRun(0, Sent(), SSRC, st, [Call(0, batch)] + rest)
    ensures HandedUp(st, [Call(0, batch)] + rest) == Process(st, batch).1 + HandedUp(Process(st, batch).0, rest)
  {
    hide Process, CallLegal, Sent, Live;
    var calls := [Call(0, batch)] + rest;
    assert calls[1..] == rest;
    assert StaysLive(0, 0, st);
  }

  lemma InsertedMedia(st: State, u: u16)
    requires st.fecs == []
    ensures InsertAll(st, [ReceivedMedia(u, Plain(u))]) ==
      State([], if u in Keys(st.recovered) then st.recovered else PushSorted(st.recovered, Entry(u)))
  {
    hide Plain, PushSorted;
    var batch := [ReceivedMedia(u, Plain(u))];
    assert batch[..0] == [];
    assert InsertAll(st, batch) == InsertOne(st, batch[0]);
    assert CoverAll([], Entry(u)) == [];
  }

  // ---- A duplicate -----------------------------------------------------------------------

  const ONE: seq<ReceivedPacket> := [ReceivedMedia(5, Plain(5))]

  const TWICE: seq<Call> := [Call(0, ONE), Call(0, ONE)]

  lemma FirstOne()
    ensures Process(EMPTY, ONE) == (State([], [Entry(5)]), [Plain(5)])
  {
    InsertedMedia(EMPTY, 5);
    assert PushSorted([], Entry(5)) == [Entry(5)];
    hide Plain, InsertAll, PushSorted, Process;
    QuietCall(EMPTY, ONE, [Entry(5)]);
  }

  lemma SecondOne()
    ensures Process(State([], [Entry(5)]), ONE) == (State([], [Entry(5)]), [Plain(5)])
  {
    InsertedMedia(State([], [Entry(5)]), 5);
    assert Keys([Entry(5)])[0] == 5;
    hide Plain, InsertAll, PushSorted, Process;
    QuietCall(State([], [Entry(5)]), ONE, [Entry(5)]);
  }

  lemma OneLegal()
    ensures CallLegal(0, Sent(), SSRC, ONE) && AllLive(0, Keys([Entry(5)])) && AllLive(0, Keys([]))
  {
    MediaLegal(5);
    hide Plain, Sent, ReceivedLive, ReceivedAuthentic;
  }

  // The front media packet of a batch goes up before anything is compared.
  lemma DuplicateGoesUpAgain()
    ensures GoodStream(Sent(), SSRC) && LegalReceiverRun(0, Sent(), SSRC, EMPTY, TWICE)
    ensures HandedUp(EMPTY, TWICE) == [Plain(5), Plain(5)]
  {
    PlainStream();
    OneLegal();
    FirstOne();
    SecondOne();
    NoCalls(State([], [Entry(5)]));
    LegalStep(State([], [Entry(5)]), ONE, []);
    LegalStep(EMPTY, ONE, [Call(0, ONE)] + []);
    hide Plain, Sent, GoodStream, CallLegal, Process, LegalReceiverRun, HandedUp, AllLive, Entry;
    assert TWICE == [Call(0, ONE)] + ([Call(0, ONE)] + []);
  }

  lemma NoCalls(st: State)
    ensures LegalReceiverRun(0, Sent(), SSRC, st, []) && HandedUp(st, []) == []
  {
  }

  // ---- A number that has been forgotten ----------------------------------------------------

  function Batch(n: nat): (batch: seq<ReceivedPacket>)
    requires n <= MAX_MEDIA_PACKETS
    ensures |batch| == n && forall i :: 0 <= i < n ==> batch[i] == ReceivedMedia(i, Plain(i))
  {
    seq(n, i requires 0 <= i < n => ReceivedMedia(i, Plain(i)))
  }

  function Entries(n: nat): (list: seq<RecoveredPacket>)
    requires n <= MAX_MEDIA_PACKETS
    ensures |list| == n && forall i :: 0 <= i < n ==> list[i] == Entry(i)
  {
    seq(n, i requires 0 <= i < n => Entry(i))
  }

  lemma {:induction false} FirstBatch(n: nat)
    requires n <= MAX_MEDIA_PACKETS
    ensures InsertAll(EMPTY, Batch(n)) == State([], Entries(n))
  {
    hide Plain, InsertOne;
    if n > 0 {
      FirstBatch(n - 1);
      assert Batch(n)[..n - 1] == Batch(n - 1);
      NextEntry(n - 1);
    }
  }

  lemma NextEntry(n: nat)
    requires n < MAX_MEDIA_PACKETS
    ensures InsertOne(State([], Entries(n)), ReceivedMedia(n, Plain(n))) == State([], Entries(n + 1))
  {
    hide Plain;
    var keys := Keys(Entries(n));
    assert forall i :: 0 <= i < n ==> keys[i] == i;
    assert n !in keys;
    assert forall i :: 0 <= i < n ==> !IsNewer(keys[i], n);
    assert InsertAt(keys, n) == n;
    assert PushSorted(Entries(n), Entry(n)) == Entries(n + 1);
    assert CoverAll([], Entry(n)) == [];
  }

  // Packets 0 to 47, then packet 97, which is far enough to reset the decoder, then the
  // FEC packet of packet 0.
  const FAR: seq<ReceivedPacket> := [ReceivedMedia(97, Plain(97))]

  const REPAIR: seq<ReceivedPacket> := [ReceivedFec(98, SSRC, SINGLE_FEC)]

  function Ending(): seq<Call> { [Call(0, REPAIR)] + [] }

  function Middle(): seq<Call> { [Call(0, FAR)] + Ending() }

  function Forgetful(): seq<Call> { [Call(0, Batch(48))] + Middle() }

  lemma SecondCall()
    ensures Process(State([], Entries(48)), FAR) == (State([], [Entry(97)]), [Plain(97)])
  {
    var st := State([], Entries(48));
    assert ResetIfFar(st, FAR) == EMPTY;
    InsertedMedia(EMPTY, 97);
    assert PushSorted([], Entry(97)) == [Entry(97)];
    hide Plain, InsertAll, PushSorted, Process;
    QuietCall(st, FAR, [Entry(97)]);
  }

  const LAST: State := State([], [Entry(97)])

  const WAITING: FecPacket := FecPacket(98, SSRC, SINGLE_FEC, [ProtectedPacket(0, Options.None)])

  lemma RepairInserted()
    ensures Inserted(LAST, REPAIR) == State([WAITING], LAST.recovered)
  {
    SingleCovers();
    hide Plain, CoveredSeqs;
    assert REPAIR[..0] == [];
    assert InsertAll(LAST, REPAIR) == InsertOne(LAST, REPAIR[0]);
    assert Keys(LAST.recovered) == [97];
    assert NewFec(98, SSRC, SINGLE_FEC, LAST.recovered) == WAITING;
  }

  lemma RepairDecoded()
    ensures |Missing(WAITING.protectedList)| == 1 && Recover(WAITING).seqNum == 0 && !Recover(WAITING).returned
    ensures Decode(LAST, REPAIR) == State([], [Recover(WAITING), Entry(97)])
  {
    RepairInserted();
    assert WAITING.protectedList[..0] == [];
    assert Missing(WAITING.protectedList) == [0];
    hide Plain, Recovered, Inserted;
    var st, r := State([WAITING], LAST.recovered), Recover(WAITING);
    assert Keys([Entry(97)]) == [97] && InsertAt([97], 0) == 0;
    assert PushSorted(LAST.recovered, r) == [r, Entry(97)];
    assert RecoverAt(st, 0) == State([], [r, Entry(97)]);
    assert Attempt(st, 0) == Attempt(State([], [r, Entry(97)]), 0);
  }

  lemma ThirdCall()
    ensures UpNumbers(LAST, REPAIR) == [0]
  {
    RepairDecoded();
    hide Decode, Recover, Plain;
    var list := [Recover(WAITING), Entry(97)];
    assert list[..1] == [Recover(WAITING)] && list[..1][..0] == [];
    assert Fresh(list) == Fresh(list[..1]) == [Recover(WAITING)];
    assert Keys(Fresh(list)) == [0];
  }

  lemma BatchLegal(n: nat)
    requires n <= MAX_MEDIA_PACKETS
    ensures CallLegal(0, Sent(), SSRC, Batch(n)) && AllLive(0, Keys(Entries(n)))
  {
    hide Plain, Sent, ReceivedLive, ReceivedAuthentic;
    forall i | 0 <= i < n
      ensures ReceivedLive(0, Batch(n)[i]) && ReceivedAuthentic(0, Sent(), SSRC, Batch(n)[i])
    {
      MediaLegal(i);
    }
    assert forall i :: 0 <= i < n ==> Keys(Entries(n))[i] == i;
  }

  lemma OthersLegal()
    ensures CallLegal(0, Sent(), SSRC, FAR) && CallLegal(0, Sent(), SSRC, REPAIR) && AllLive(0, Keys(LAST.recovered)) && AllLive(0, Keys([]))
  {
    MediaLegal(97);
    SingleIsSent();
    hide Plain, Sent, FecSent, CoveredSeqs, AllLive;
    assert ReceivedLive(0, REPAIR[0]) && ReceivedAuthentic(0, Sent(), SSRC, REPAIR[0]);
    assert AllLive(0, Keys(LAST.recovered)) && AllLive(0, Keys([])) by { LastLive(); }
  }

  lemma LastLive()
    ensures AllLive(0, Keys(LAST.recovered)) && AllLive(0, Keys([]))
  {
    hide Plain;
  }

  lemma FirstCall()
    ensures Process(EMPTY, Batch(48)) == (State([], Entries(48)), [Plain(0)])
  {
    FirstBatch(48);
    hide Plain, InsertAll, Process;
    QuietCall(EMPTY, Batch(48), Entries(48));
  }

  lemma EndingLegal()
    ensures LegalReceiverRun(0, Sent(), SSRC, LAST, Ending())
  {
    OthersLegal();
    hide Plain, Sent, CallLegal, Process, LegalReceiverRun, HandedUp, AllLive, Entry;
    NoCalls(Process(LAST, REPAIR).0);
    LegalStep(LAST, REPAIR, []);
  }

  lemma MiddleLegal()
    ensures LegalReceiverRun(0, Sent(), SSRC, State([], Entries(48)), Middle())
  {
    OthersLegal();
    BatchLegal(48);
    SecondCall();
    hide Plain, Sent, CallLegal, Process, LegalReceiverRun, HandedUp, AllLive, Entry, Entries, Batch, Ending;
    EndingLegal();
    LegalStep(State([], Entries(48)), FAR, Ending());
  }

  lemma ForgetfulLegal()
    ensures LegalReceiverRun(0, Sent(), SSRC, EMPTY, Forgetful())
  {
    OthersLegal();
    BatchLegal(48);
    FirstCall();
    hide Plain, Sent, CallLegal, Process, LegalReceiverRun, HandedUp, AllLive, Entry, Entries, Batch, Middle;
    MiddleLegal();
    LegalStep(EMPTY, Batch(48), Middle());
  }

  lemma StateTwo(st: State, calls: seq<Call>)
    requires |calls| >= 2
    ensures StateBefore(st, calls, 0) == st
    ensures StateBefore(st, calls, 2) == Process(Process(st, calls[0].batch).0, calls[1].batch).0
  {
    hide Process;
  }

  lemma ForgetfulIs()
    ensures var calls := Forgetful();
      |calls| == 3 && calls[0].batch == Batch(48) && calls[1].batch == FAR && calls[2].batch == REPAIR
  {
    hide Plain, Batch;
  }

  lemma ForgetfulStates()
    ensures |Forgetful()| == 3
    ensures StateBefore(EMPTY, Forgetful(), 0) == EMPTY && StateBefore(EMPTY, Forgetful(), 2) == LAST
  {
    FirstCall();
    SecondCall();
    ForgetfulIs();
    hide Plain, Process, Entry, Entries, Batch, StateBefore, Forgetful;
    StateTwo(EMPTY, Forgetful());
  }

  // Packet 0 goes up at once. When the reset has made the decoder forget it, it goes up
  // from the recovered list again.
  lemma ForgottenGoesUpAgain()
    ensures GoodStream(Sent(), SSRC) && LegalReceiverRun(0, Sent(), SSRC, EMPTY, Forgetful())
    ensures 0 in UpNumbers(StateBefore(EMPTY, Forgetful(), 0), Forgetful()[0].batch)
    ensures 0 in ListNumbers(StateBefore(EMPTY, Forgetful(), 2), Forgetful()[2].batch)
  {
    PlainStream();
    ForgetfulLegal();
    ThirdCall();
    ForgetfulStates();
    ForgetfulIs();
    assert FrontNumber(Batch(48)) == [0] && FrontNumber(REPAIR) == [];
    hide Plain, Sent, GoodStream, LegalReceiverRun, ListNumbers, FrontNumber, Batch, StateBefore, Forgetful;
  }

  // ---- An FEC packet dropped at the wrap -----------------------------------------------------

  // FEC packet 65535 protects packets 65533 and 65534. Packet 0 makes it stale.
  const PAIR_FEC: Packet := [0, 0, 0xff, 0xfd, 0, 0, 0, 0, 0, 0, 0, 0, 0xc0, 0]

  const PAIR: FecPacket :=
    FecPacket(65535, SSRC, PAIR_FEC, [ProtectedPacket(65533, Options.None), ProtectedPacket(65534, Options.None)])

  const PAIR_BATCH: seq<ReceivedPacket> := [ReceivedFec(65535, SSRC, PAIR_FEC)]

  const ZERO_BATCH: seq<ReceivedPacket> := [ReceivedMedia(0, Plain(0))]

  const MEMBER_BATCH: seq<ReceivedPacket> := [ReceivedMedia(65533, Plain(65533))]

  const WRAPPING: seq<Call> := [Call(65000, PAIR_BATCH), Call(65000, ZERO_BATCH), Call(65000, MEMBER_BATCH)]

  lemma {:induction false} PairOffsets(k: nat)
    requires 2 <= k <= 16
    ensures ProtectedOffsets(PAIR_FEC, k) == [0, 1]
  {
    if k == 2 {
      assert MaskBit(PAIR_FEC, 0) && MaskBit(PAIR_FEC, 1);
      assert ProtectedOffsets(PAIR_FEC, 0) == [] && ProtectedOffsets(PAIR_FEC, 1) == [0];
    } else {
      PairOffsets(k - 1);
      assert !MaskBit(PAIR_FEC, k - 1);
    }
  }

  lemma PairCovers()
    ensures CoveredSeqs(PAIR_FEC) == [65533, 65534]
  {
    PairOffsets(16);
    PairBase();
    hide NatOf, ParseSequenceNumber, ProtectedOffsets;
  }

  lemma PairBase()
    ensures ParseSequenceNumber(PAIR_FEC) == 65533
  {
    assert NatOf(1) == 1 && NatOf(3) == 3 && NatOf(7) == 7 && NatOf(15) == 15;
    assert NatOf(31) == 31 && NatOf(63) == 63;
    assert NatOf(127) == 127 && NatOf(126) == 126;
    assert NatOf(255) == 255 && NatOf(253) == 253;
    hide NatOf;
  }

  lemma PairCall()
    ensures Process(EMPTY, PAIR_BATCH).0 == State([PAIR], [])
  {
    PairCovers();
    hide CoveredSeqs;
    assert PAIR_BATCH[..0] == [];
    assert InsertAll(EMPTY, PAIR_BATCH) == InsertOne(EMPTY, PAIR_BATCH[0]);
    assert NewFec(65535, SSRC, PAIR_FEC, []) == PAIR;
    assert InsertOne(EMPTY, PAIR_BATCH[0]) == State([PAIR], []);
    PairMissesTwo();
    hide Missing;
    assert Attempt(State([PAIR], []), 0) == Attempt(State([PAIR], []), 1) == State([PAIR], []);
    assert MarkAll([]) == [];
  }

  lemma PairMissesTwo()
    ensures |Missing(PAIR.protectedList)| == 2
  {
    var list := PAIR.protectedList;
    assert list[..1] == [list[0]] && list[..1][..0] == [];
    assert Missing(list[..1]) == [65533];
  }

  lemma ZeroCall()
    ensures Process(State([PAIR], []), ZERO_BATCH).0 == State([], [Entry(0)])
  {
    ZeroInserted();
    hide Plain, InsertAll, PushSorted, Process;
    QuietCall(State([PAIR], []), ZERO_BATCH, [Entry(0)]);
  }

  lemma ZeroInserted()
    ensures InsertAll(State([PAIR], []), ZERO_BATCH) == State([], [Entry(0)])
  {
    hide Plain, PushSorted, CoverAll;
    var st := State([PAIR], []);
    assert ZERO_BATCH[..0] == [];
    assert InsertAll(st, ZERO_BATCH) == InsertOne(st, ZERO_BATCH[0]);
    assert DropStaleFec(st, 0) == EMPTY;
    ZeroPushed();
  }

  lemma ZeroPushed()
    ensures PushSorted([], Entry(0)) == [Entry(0)] && CoverAll([], Entry(0)) == []
  {
    hide Plain;
  }

  lemma MemberCall()
    ensures Process(State([], [Entry(0)]), MEMBER_BATCH).0 == State([], [Entry(65533), Entry(0)])
  {
    hide Plain;
    InsertedMedia(State([], [Entry(0)]), 65533);
    assert Keys([Entry(0)]) == [0] && InsertAt([0], 65533) == 0;
    assert PushSorted([Entry(0)], Entry(65533)) == [Entry(65533), Entry(0)];
    hide InsertAll, PushSorted, Process;
    QuietCall(State([], [Entry(0)]), MEMBER_BATCH, [Entry(65533), Entry(0)]);
  }

  lemma WrappingStates()
    ensures KeySet(StateBefore(EMPTY, WRAPPING, 3)) == {65533, 0}
  {
    PairCall();
    ZeroCall();
    MemberCall();
    hide Plain, Process;
    assert WRAPPING[1..][1..][1..] == [];
    assert WRAPPING[1..] == [Call(65000, ZERO_BATCH), Call(65000, MEMBER_BATCH)] && WRAPPING[1..][1..] == [Call(65000, MEMBER_BATCH)];
    var final := State([], [Entry(65533), Entry(0)]);
    assert StateBefore(final, [], 0) == final;
    assert StateBefore(State([], [Entry(0)]), WRAPPING[1..][1..], 1) == final;
    assert StateBefore(State([PAIR], []), WRAPPING[1..], 2) == final;
    assert StateBefore(EMPTY, WRAPPING, 3) == final;
    assert Keys(final.recovered) == [65533, 0];
  }

  lemma WrappingReceived()
    ensures Received(WRAPPING) == PAIR_BATCH + ZERO_BATCH + MEMBER_BATCH
  {
    hide Plain;
    var second, third := WRAPPING[1..], WRAPPING[1..][1..];
    assert third[1..] == [];
    assert Received(third) == MEMBER_BATCH;
    assert Received(second) == ZERO_BATCH + MEMBER_BATCH;
    assert PAIR_BATCH + (ZERO_BATCH + MEMBER_BATCH) == PAIR_BATCH + ZERO_BATCH + MEMBER_BATCH;
  }

  // Three packets, all of them live in one half window: the FEC packet and one of its two
  // media packets are received, but the other is never recovered, since the age test
  // takes the plain difference of 65535 and 0.
  lemma WrapLosesRepair()
    ensures Received(WRAPPING) == PAIR_BATCH + ZERO_BATCH + MEMBER_BATCH
    ensures forall rx :: rx in Received(WRAPPING) ==> ReceivedLive(65000, rx)
    ensures HasMedia(Received(WRAPPING), 65533) && CoveredSeqs(PAIR_FEC) == [65533, 65534]
    ensures 65534 !in KeySet(StateBefore(EMPTY, WRAPPING, 3)) && !ClosedFor(Received(WRAPPING), KeySet(StateBefore(EMPTY, WRAPPING, 3)))
  {
    PairCovers();
    WrappingStates();
    WrappingReceived();
    hide Plain, CoveredSeqs, StateBefore, KeySet, Received;
    var rxs := Received(WRAPPING);
    assert rxs[0] == PAIR_BATCH[0] && rxs[1] == ZERO_BATCH[0] && rxs[2] == MEMBER_BATCH[0];
    assert CoveredSet(rxs[0].fec) == {65533, 65534};
    assert 65534 in CoveredSet(rxs[0].fec) && CoveredSet(rxs[0].fec) <= {65533, 0} + {65534};
  }
}
