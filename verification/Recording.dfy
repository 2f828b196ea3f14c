// The recording path from end to end: packetized frames pass through the reorder
// queue, in any order of arrival, and come out of the recorder as whole frames.
module Recording {
  import opened Bytes
  import opened SeqNum
  import opened PacketQueue
  import opened Vp8Fragmenter
  import opened VideoRecorder

  // The packets of a list of frames, numbered from u on.
  function Stream(frames: seq<Frame>, u: int): seq<RtpPacket> {
    if frames == [] then [] else PacketsOf(frames[0], u) + Stream(frames[1..], u + Count(frames[0]))
  }

  // The frames all of whose packets arrived, except those that straddle a wrap of the
  // sequence number, in order.
  function Whole(frames: seq<Frame>, u: int, arrived: set<int>): seq<seq<byte>> {
    if frames == [] then []
    else
      var n := Count(frames[0]);
      (if Intact(u, n, arrived) then [frames[0].data] else []) + Whole(frames[1..], u + n, arrived)
  }

  ghost predicate NonEmpty(frames: seq<Frame>) { forall i :: 0 <= i < |frames| ==> frames[i].data != [] }

  // What intact means: every number of the frame arrived, and none but the first is a
  // multiple of 2^16.
  lemma {:induction false} IntactMeans(u: int, n: nat, arrived: set<int>)
    ensures Intact(u, n, arrived) <==> forall v :: u <= v < u + n ==> v in arrived && (v > u ==> v % WRAP != 0)
  {
    if n > 0 {
      IntactMeans(u, n - 1, arrived);
      if Intact(u, n, arrived) {
        forall v | u <= v < u + n
          ensures v in arrived && (v > u ==> v % WRAP != 0)
        {
          assert v == u + n - 1 || v < u + (n - 1);
        }
      }
    }
  }

  lemma {:induction false} StreamReadable(frames: seq<Frame>, u: int)
    ensures AllReadable(Stream(frames, u))
  {
    hide Readable, Count, PacketsOf;
    if frames != [] {
      FrameReadable(frames[0], u);
      StreamReadable(frames[1..], u + Count(frames[0]));
    }
  }

  lemma {:induction false} FeedJoined(r: Recorder, ps: seq<RtpPacket>, qs: seq<RtpPacket>, u: int, arrived: set<int>, k: nat)
    requires AllReadable(ps) && AllReadable(qs) && k <= |qs|
    ensures AllReadable(ps + qs)
    ensures Feed(r, ps + qs, u, arrived, |ps| + k) == Feed(Feed(r, ps, u, arrived, |ps|), qs, u + |ps|, arrived, k)
  {
    hide Readable, WriteVideoData;
    if k == 0 {
      FeedPrefix(r, ps, qs, u, arrived, |ps|);
    } else {
      FeedJoined(r, ps, qs, u, arrived, k - 1);
      assert (ps + qs)[|ps| + k - 1] == qs[k - 1];
    }
  }

  lemma {:induction false} FeedPrefix(r: Recorder, ps: seq<RtpPacket>, qs: seq<RtpPacket>, u: int, arrived: set<int>, k: nat)
    requires AllReadable(ps) && AllReadable(qs) && k <= |ps|
    ensures AllReadable(ps + qs)
    ensures Feed(r, ps + qs, u, arrived, k) == Feed(r, ps, u, arrived, k)
  {
    hide Readable, WriteVideoData;
    if k > 0 {
      FeedPrefix(r, ps, qs, u, arrived, k - 1);
    }
  }

  // Over any loss, the recorder writes exactly the whole frames, byte for byte and in
  // order.
  lemma {:induction false} LossyStream(r: Recorder, frames: seq<Frame>, u: int, arrived: set<int>)
    requires NonEmpty(frames) && Idle(r, u, arrived) && ShortLosses(arrived)
    ensures AllReadable(Stream(frames, u))
    ensures Feed(r, Stream(frames, u), u, arrived, |Stream(frames, u)|).written == r.written + Whole(frames, u, arrived)
    decreases |frames|
  {
    hide Readable, WriteVideoData, ShortLosses, Intact, Idle, Feed, PacketsOf, Count, AllReadable, Fragments;
    StreamReadable(frames, u);
    if frames == [] {
      FeedNothing(r, u, arrived);
    } else {
      var f, rest, n := frames[0], frames[1..], Count(frames[0]);
      FirstFrame(frames, u, arrived);
      hide Stream, Whole;
      WholeOrNot(r, f, u, arrived);
      StreamReadable(rest, u + n);
      LossyStream(Feed(r, PacketsOf(f, u), u, arrived, n), rest, u + n, arrived);
      WrittenJoined(r, PacketsOf(f, u), Stream(rest, u + n), u, arrived,
                    if Intact(u, n, arrived) then [f.data] else [], Whole(rest, u + n, arrived));
    }
  }

  lemma WrittenJoined(r: Recorder, ps: seq<RtpPacket>, qs: seq<RtpPacket>, u: int, arrived: set<int>,
                      first: seq<seq<byte>>, second: seq<seq<byte>>)
    requires AllReadable(ps) && AllReadable(qs)
    requires var next := Feed(r, ps, u, arrived, |ps|);
      next.written == r.written + first && Feed(next, qs, u + |ps|, arrived, |qs|).written == next.written + second
    ensures AllReadable(ps + qs) && Feed(r, ps + qs, u, arrived, |ps + qs|).written == r.written + (first + second)
  {
    hide Readable, WriteVideoData, AllReadable;
    FeedJoined(r, ps, qs, u, arrived, |qs|);
    assert r.written + first + second == r.written + (first + second);
  }

  lemma FirstFrame(frames: seq<Frame>, u: int, arrived: set<int>)
    requires frames != []
    ensures var n := Count(frames[0]);
      && Stream(frames, u) == PacketsOf(frames[0], u) + Stream(frames[1..], u + n)
      && Whole(frames, u, arrived) == (if Intact(u, n, arrived) then [frames[0].data] else []) + Whole(frames[1..], u + n, arrived)
  {
    hide PacketsOf, Count, Intact;
  }

  lemma FeedNothing(r: Recorder, u: int, arrived: set<int>)
    ensures Feed(r, [], u, arrived, 0) == r
  {
  }

  // One frame: written exactly if it is intact, and the recorder is idle behind it.
  lemma WholeOrNot(r: Recorder, f: Frame, u: int, arrived: set<int>)
    requires f.data != [] && Idle(r, u, arrived) && ShortLosses(arrived)
    ensures AllReadable(PacketsOf(f, u)) && |PacketsOf(f, u)| == Count(f)
    ensures var next := Feed(r, PacketsOf(f, u), u, arrived, Count(f));
      && Idle(next, u + Count(f), arrived)
      && next.written == r.written + (if Intact(u, Count(f), arrived) then [f.data] else [])
  {
    hide Readable, WriteVideoData, Packetize, ShortLosses, Fragments, Feed, Intact;
    FragmentsTile(|f.data|, 0);
    FeedFrame(r, f, u, arrived, Count(f));
  }

  // ---- The buffer of the recorder ------------------------------------------------------

  // Every packet of a stream that arrives fits the buffer when it is written.
  ghost predicate AllFit(r: Recorder, ps: seq<RtpPacket>, u: int, arrived: set<int>, n: nat)
    requires n <= |ps| && AllReadable(ps)
  {
    forall k :: 0 <= k < n && u + k in arrived ==> Fits(Feed(r, ps, u, arrived, k), ps[k])
  }

  // No intact beginning of a frame is longer than the buffer.
  ghost predicate PrefixesFit(f: Frame, u: int, arrived: set<int>) {
    forall k :: 0 <= k < Count(f) ==> PrefixFits(f, u, arrived, k)
  }

  ghost predicate AllPrefixesFit(frames: seq<Frame>, u: int, arrived: set<int>) {
    frames == [] || (PrefixesFit(frames[0], u, arrived) && AllPrefixesFit(frames[1..], u + Count(frames[0]), arrived))
  }

  lemma FrameFits(r: Recorder, f: Frame, u: int, arrived: set<int>)
    requires f.data != [] && Idle(r, u, arrived) && ShortLosses(arrived)
    ensures AllReadable(PacketsOf(f, u)) && |PacketsOf(f, u)| == Count(f)
    ensures AllFit(r, PacketsOf(f, u), u, arrived, Count(f)) <==> PrefixesFit(f, u, arrived)
  {
    hide Readable, Packetize, ShortLosses, Fragments, Feed, Idle, FrameState, Fits;
    FeedFrame(r, f, u, arrived, 0);
    forall k | 0 <= k < Count(f)
      ensures u + k in arrived ==> (Fits(Feed(r, PacketsOf(f, u), u, arrived, k), PacketsOf(f, u)[k]) <==> PrefixFits(f, u, arrived, k))
      ensures u + k !in arrived ==> PrefixFits(f, u, arrived, k)
    {
      FeedFrame(r, f, u, arrived, k);
      if u + k in arrived {
        PartFits(r, Feed(r, PacketsOf(f, u), u, arrived, k), f, u, arrived, k);
      }
    }
  }

  lemma FitJoined(r: Recorder, ps: seq<RtpPacket>, qs: seq<RtpPacket>, u: int, arrived: set<int>)
    requires AllReadable(ps) && AllReadable(qs)
    ensures AllReadable(ps + qs)
    ensures AllFit(r, ps + qs, u, arrived, |ps + qs|) <==>
      AllFit(r, ps, u, arrived, |ps|) && AllFit(Feed(r, ps, u, arrived, |ps|), qs, u + |ps|, arrived, |qs|)
  {
    hide Readable, WriteVideoData, Fits, Feed;
    var next := Feed(r, ps, u, arrived, |ps|);
    forall k | 0 <= k < |ps|
      ensures Feed(r, ps + qs, u, arrived, k) == Feed(r, ps, u, arrived, k) && (ps + qs)[k] == ps[k]
    {
      FeedPrefix(r, ps, qs, u, arrived, k);
    }
    forall k | 0 <= k < |qs|
      ensures Feed(r, ps + qs, u, arrived, |ps| + k) == Feed(next, qs, u + |ps|, arrived, k) && (ps + qs)[|ps| + k] == qs[k]
    {
      FeedJoined(r, ps, qs, u, arrived, k);
    }
    if AllFit(r, ps + qs, u, arrived, |ps + qs|) {
      forall k | 0 <= k < |qs| && u + |ps| + k in arrived
        ensures Fits(Feed(next, qs, u + |ps|, arrived, k), qs[k])
      {
        assert Fits(Feed(r, ps + qs, u, arrived, |ps| + k), (ps + qs)[|ps| + k]);
      }
      assert forall k :: 0 <= k < |ps| && u + k in arrived ==> Fits(Feed(r, ps + qs, u, arrived, k), (ps + qs)[k]);
    } else {
      var k :| 0 <= k < |ps + qs| && u + k in arrived && !Fits(Feed(r, ps + qs, u, arrived, k), (ps + qs)[k]);
      if k >= |ps| {
        assert !Fits(Feed(next, qs, u + |ps|, arrived, k - |ps|), qs[k - |ps|]);
      }
    }
  }

  // Over any loss, the recorder stays within its buffer if and only if no intact
  // beginning of a frame is longer than it.
  lemma {:induction false} StreamFits(r: Recorder, frames: seq<Frame>, u: int, arrived: set<int>)
    requires NonEmpty(frames) && Idle(r, u, arrived) && ShortLosses(arrived)
    ensures AllReadable(Stream(frames, u))
    ensures AllFit(r, Stream(frames, u), u, arrived, |Stream(frames, u)|) <==> AllPrefixesFit(frames, u, arrived)
    decreases |frames|
  {
    hide Readable, WriteVideoData, ShortLosses, Intact, Idle, Feed, PacketsOf, Count, AllReadable, Fragments, Fits, AllFit, PrefixesFit;
    StreamReadable(frames, u);
    if frames == [] {
      assert AllFit(r, [], u, arrived, 0) by { NothingToFit(r, u, arrived); }
    } else {
      var f, rest, n := frames[0], frames[1..], Count(frames[0]);
      FirstFrame(frames, u, arrived);
      hide Stream;
      WholeOrNot(r, f, u, arrived);
      FrameFits(r, f, u, arrived);
      StreamReadable(rest, u + n);
      StreamFits(Feed(r, PacketsOf(f, u), u, arrived, n), rest, u + n, arrived);
      FitJoined(r, PacketsOf(f, u), Stream(rest, u + n), u, arrived);
    }
  }

  lemma NothingToFit(r: Recorder, u: int, arrived: set<int>)
    ensures AllFit(r, [], u, arrived, 0)
  {
  }

  // No frame is longer than the buffer.
  ghost predicate Bounded(frames: seq<Frame>) { forall i :: 0 <= i < |frames| ==> |frames[i].data| <= UNPACKAGE_BUFFER_SIZE }

  lemma {:induction false} BoundedFit(frames: seq<Frame>, u: int, arrived: set<int>)
    requires Bounded(frames)
    ensures AllPrefixesFit(frames, u, arrived)
    decreases |frames|
  {
    hide Fragments, Intact;
    if frames != [] {
      FragmentsTile(|frames[0].data|, 0);
      BoundedFit(frames[1..], u + Count(frames[0]), arrived);
    }
  }

  // ---- Lists of packets ----------------------------------------------------------------

  // The recorder, given a list of packets one after the other.
  ghost function FeedList(r: Recorder, ps: seq<RtpPacket>): Recorder
    requires AllReadable(ps)
  {
    if ps == [] then r else WriteVideoData(FeedList(r, ps[..|ps| - 1]), ps[|ps| - 1])
  }

  // Each of them fits the buffer.
  ghost predicate ListFits(r: Recorder, ps: seq<RtpPacket>)
    requires AllReadable(ps)
  {
    forall i :: 0 <= i < |ps| ==> Fits(FeedList(r, ps[..i]), ps[i])
  }

  lemma ListFitsLast(r: Recorder, ps: seq<RtpPacket>)
    requires AllReadable(ps) && ps != []
    ensures var n := |ps| - 1;
      ListFits(r, ps) <==> ListFits(r, ps[..n]) && Fits(FeedList(r, ps[..n]), ps[n])
  {
    hide Readable, Fits, FeedList;
    var n := |ps| - 1;
    assert forall i :: 0 <= i < n ==> ps[..n][..i] == ps[..i];
    if ListFits(r, ps[..n]) && Fits(FeedList(r, ps[..n]), ps[n]) {
      forall i | 0 <= i < |ps|
        ensures Fits(FeedList(r, ps[..i]), ps[i])
      {
        assert i < n ==> Fits(FeedList(r, ps[..n][..i]), ps[..n][i]);
      }
    }
  }

  ghost predicate Increasing(items: seq<Item>) { forall i, j :: 0 <= i < j < |items| ==> items[i].u < items[j].u }

  ghost predicate FromStream(x: Item, ps: seq<RtpPacket>, u: int) { u <= x.u < u + |ps| && x.packet == ps[x.u - u] }

  ghost predicate AllFromStream(items: seq<Item>, ps: seq<RtpPacket>, u: int) {
    forall i :: 0 <= i < |items| ==> FromStream(items[i], ps, u)
  }

  ghost function ItemNumbers(items: seq<Item>): set<int> { set x | x in items :: x.u }

  // Exactly the items' numbers arrived, as far as number u + k.
  ghost predicate ArrivedAre(items: seq<Item>, u: int, arrived: set<int>, k: nat) {
    && (forall i :: 0 <= i < |items| ==> u <= items[i].u < u + k && items[i].u in arrived)
    && (forall v :: u <= v < u + k && v in arrived ==> exists i :: 0 <= i < |items| && items[i].u == v)
  }

  lemma LastIsGreatest(items: seq<Item>)
    requires Increasing(items) && items != []
    ensures forall j :: 0 <= j < |items| - 1 ==> items[j].u < items[|items| - 1].u
    ensures Increasing(items[..|items| - 1])
  {
  }

  lemma LastItemArrived(items: seq<Item>, u: int, arrived: set<int>, k: nat)
    requires 0 < k && Increasing(items) && ArrivedAre(items, u, arrived, k) && u + k - 1 in arrived
    ensures items != [] && items[|items| - 1].u == u + k - 1
    ensures Increasing(items[..|items| - 1]) && ArrivedAre(items[..|items| - 1], u, arrived, k - 1)
  {
    var i :| 0 <= i < |items| && items[i].u == u + k - 1;
    var n := |items| - 1;
    LastIsGreatest(items);
    forall v | u <= v < u + k - 1 && v in arrived
      ensures exists j :: 0 <= j < n && items[..n][j].u == v
    {
      var j :| 0 <= j < |items| && items[j].u == v;
      assert items[..n][j].u == v;
    }
  }

  ghost function FirstNumber(items: seq<Item>): int { if items == [] then 0 else items[0].u }

  lemma NoItems(items: seq<Item>, u: int, arrived: set<int>)
    requires ArrivedAre(items, u, arrived, 0)
    ensures items == []
  {
    assert items == [] || FirstNumber(items) < u;
  }

  lemma NothingArrived(items: seq<Item>, u: int, arrived: set<int>, k: nat)
    requires 0 < k && ArrivedAre(items, u, arrived, k) && u + k - 1 !in arrived
    ensures ArrivedAre(items, u, arrived, k - 1)
  {
  }

  lemma ItemsReadable(items: seq<Item>, ps: seq<RtpPacket>, u: int)
    requires AllReadable(ps) && AllFromStream(items, ps, u)
    ensures AllReadable(Packets(items))
  {
    hide Readable;
  }

  lemma LastPacket(items: seq<Item>)
    requires items != []
    ensures Packets(items) == Packets(items[..|items| - 1]) + [items[|items| - 1].packet]
  {
  }

  lemma FitOneMore(r: Recorder, ps: seq<RtpPacket>, u: int, arrived: set<int>, k: nat)
    requires 0 < k <= |ps| && AllReadable(ps)
    ensures AllFit(r, ps, u, arrived, k) <==>
      AllFit(r, ps, u, arrived, k - 1) && (u + k - 1 in arrived ==> Fits(Feed(r, ps, u, arrived, k - 1), ps[k - 1]))
  {
    hide Readable, Fits, Feed;
  }

  lemma LastItemFed(r: Recorder, items: seq<Item>, ps: seq<RtpPacket>, u: int, arrived: set<int>, k: nat)
    requires AllReadable(ps) && 0 < k <= |ps| && items != [] && u + k - 1 in arrived && AllReadable(Packets(items))
    requires items[|items| - 1].packet == ps[k - 1]
    requires var rest := Packets(items[..|items| - 1]);
      && AllReadable(rest) && FeedList(r, rest) == Feed(r, ps, u, arrived, k - 1)
      && (ListFits(r, rest) <==> AllFit(r, ps, u, arrived, k - 1))
    ensures FeedList(r, Packets(items)) == Feed(r, ps, u, arrived, k)
    ensures ListFits(r, Packets(items)) <==> AllFit(r, ps, u, arrived, k)
  {
    hide Readable, WriteVideoData, Fits;
    LastPacket(items);
    var all := Packets(items);
    hide Packets;
    assert all[..|items| - 1] == Packets(items[..|items| - 1]);
    ListFitsLast(r, all);
    FitOneMore(r, ps, u, arrived, k);
    hide ListFits, AllFit;
  }

  lemma LastItemIs(items: seq<Item>, ps: seq<RtpPacket>, u: int, k: nat)
    requires items != [] && 0 < k <= |ps| && items[|items| - 1].u == u + k - 1
    requires AllFromStream(items, ps, u)
    ensures items[|items| - 1].packet == ps[k - 1]
    ensures AllFromStream(items[..|items| - 1], ps, u)
  {
    assert FromStream(items[|items| - 1], ps, u);
  }

  lemma NothingFed(r: Recorder, ps: seq<RtpPacket>, u: int, arrived: set<int>)
    requires AllReadable(ps) && AllReadable(Packets([]))
    ensures FeedList(r, Packets([])) == Feed(r, ps, u, arrived, 0)
    ensures ListFits(r, Packets([])) <==> AllFit(r, ps, u, arrived, 0)
  {
  }

  lemma LostIsNotFed(r: Recorder, ps: seq<RtpPacket>, u: int, arrived: set<int>, k: nat)
    requires AllReadable(ps) && 0 < k <= |ps| && u + k - 1 !in arrived
    ensures Feed(r, ps, u, arrived, k) == Feed(r, ps, u, arrived, k - 1)
    ensures AllFit(r, ps, u, arrived, k) <==> AllFit(r, ps, u, arrived, k - 1)
  {
    FitOneMore(r, ps, u, arrived, k);
    hide Readable, Fits, AllFit;
  }

  // Items of a stream in increasing order are the stream with the others lost.
  lemma {:induction false} ItemsAreLossyStream(r: Recorder, items: seq<Item>, ps: seq<RtpPacket>, u: int, arrived: set<int>, k: nat)
    requires AllReadable(ps) && k <= |ps| && Increasing(items) && ArrivedAre(items, u, arrived, k)
    requires AllFromStream(items, ps, u)
    ensures AllReadable(Packets(items))
    ensures FeedList(r, Packets(items)) == Feed(r, ps, u, arrived, k)
    ensures ListFits(r, Packets(items)) <==> AllFit(r, ps, u, arrived, k)
    decreases k
  {
    hide *;
    ItemsReadable(items, ps, u);
    if k == 0 {
      NoItems(items, u, arrived);
      NothingFed(r, ps, u, arrived);
    } else if u + k - 1 in arrived {
      LastItemArrived(items, u, arrived, k);
      LastItemIs(items, ps, u, k);
      ItemsAreLossyStream(r, items[..|items| - 1], ps, u, arrived, k - 1);
      LastItemFed(r, items, ps, u, arrived, k);
    } else {
      NothingArrived(items, u, arrived, k);
      ItemsAreLossyStream(r, items, ps, u, arrived, k - 1);
      LostIsNotFed(r, ps, u, arrived, k);
    }
  }

  // Every packet that the queue has given out was pushed.
  lemma GivenWerePushed(events: seq<Event>, depth: real, maxDepth: real, x: Item)
    requires maxDepth >= 0.0 && x in Run(EMPTY, events, depth, maxDepth).given
    ensures x in Pushed(events)
  {
    ItemsAccounted(events, depth, maxDepth);
    hide Run, Pushed;
    assert x in multiset(Run(EMPTY, events, depth, maxDepth).given);
    assert x in multiset(Pushed(events));
  }

  lemma NextGiven(items: seq<Item>, a: int, b: int)
    requires Increasing(items) && a in ItemNumbers(items) && b in ItemNumbers(items) && a < b
    requires forall c :: a < c < b ==> c !in ItemNumbers(items)
    ensures exists i :: 0 < i < |items| && items[i - 1].u == a && items[i].u == b
  {
    var x :| x in items && x.u == a;
    var i :| 0 <= i < |items| && items[i] == x;
    var y :| y in items && y.u == b;
    var j :| 0 <= j < |items| && items[j] == y;
    assert i < j;
    assert items[i + 1].u in ItemNumbers(items) && a < items[i + 1].u <= b;
    assert items[i + 1].u == b && items[i + 1 - 1].u == a;
  }

  // Packets that come out of the queue on a legal run are lost in short bursts only.
  lemma GivenHaveShortLosses(events: seq<Event>, depth: real, maxDepth: real)
    requires maxDepth >= 0.0 && LegalEvents(events, depth, maxDepth)
    ensures Increasing(Run(EMPTY, events, depth, maxDepth).given)
    ensures ShortLosses(ItemNumbers(Run(EMPTY, events, depth, maxDepth).given))
  {
    RunInOrder(events, depth, maxDepth);
    RunIsClose(events, depth, maxDepth);
    hide Run, LegalEvents;
    var items := Run(EMPTY, events, depth, maxDepth).given;
    var arrived := ItemNumbers(items);
    forall a, b | a in arrived && b in arrived && a < b && forall c :: a < c < b ==> c !in arrived
      ensures b - a <= WRAP
    {
      NextGiven(items, a, b);
    }
  }

  // From end to end: whatever the order in which the packets of some frames are pushed
  // into the queue, duplicated or lost, and whenever they are popped, the recorder at
  // the other end stays within its buffer and writes exactly the frames whose packets
  // all came out, except those that straddle a wrap, byte for byte and in order.
  lemma RecordsWholeFrames(events: seq<Event>, depth: real, maxDepth: real, frames: seq<Frame>, u: int, last: u16)
    requires maxDepth >= 0.0 && NonEmpty(frames) && Bounded(frames) && LegalEvents(events, depth, maxDepth)
    requires AllFromStream(Pushed(events), Stream(frames, u), u)
    ensures var arrived, given := ItemNumbers(Run(EMPTY, events, depth, maxDepth).given), Calls(events, depth, maxDepth).given;
      var start := Recorder(LookingForStart, [], last, []);
      AllReadable(given) && ListFits(start, given) && FeedList(start, given).written == Whole(frames, u, arrived)
  {
    RecordsWhatFits(events, depth, maxDepth, frames, u, last);
    BoundedFit(frames, u, ItemNumbers(Run(EMPTY, events, depth, maxDepth).given));
  }

  // Without a bound on the frames, the recorder stays within its buffer exactly if no
  // intact beginning of a frame is longer than it.
  lemma RecordsWhatFits(events: seq<Event>, depth: real, maxDepth: real, frames: seq<Frame>, u: int, last: u16)
    requires maxDepth >= 0.0 && NonEmpty(frames) && LegalEvents(events, depth, maxDepth)
    requires AllFromStream(Pushed(events), Stream(frames, u), u)
    ensures var arrived, given := ItemNumbers(Run(EMPTY, events, depth, maxDepth).given), Calls(events, depth, maxDepth).given;
      var start := Recorder(LookingForStart, [], last, []);
      && AllReadable(given)
      && (ListFits(start, given) <==> AllPrefixesFit(frames, u, arrived))
      && FeedList(start, given).written == Whole(frames, u, arrived)
  {
    hide Readable, LegalEvents, Calls, ShortLosses, Pushed, AllFit, AllPrefixesFit, ListFits;
    var items := Run(EMPTY, events, depth, maxDepth).given;
    var ps, arrived, r := Stream(frames, u), ItemNumbers(items), Recorder(LookingForStart, [], last, []);
    RunRefines(events, depth, maxDepth);
    GivenHaveShortLosses(events, depth, maxDepth);
    LossyStream(r, frames, u, arrived);
    StreamFits(r, frames, u, arrived);
    hide Run, Feed, FeedList, AllReadable;
    forall i | 0 <= i < |items|
      ensures FromStream(items[i], ps, u)
    {
      GivenWerePushed(events, depth, maxDepth, items[i]);
    }
    forall v | u <= v < u + |ps| && v in arrived
      ensures exists i :: 0 <= i < |items| && items[i].u == v
    {
      var x :| x in items && x.u == v;
    }
    assert ArrivedAre(items, u, arrived, |ps|);
    ItemsAreLossyStream(r, items, ps, u, arrived, |ps|);
  }

  // ---- The loops that feed the recorder ------------------------------------------------

  // A queue with the newest packet in front, the other way round.
  function OldestFirst(queue: seq<RtpPacket>): (s: seq<RtpPacket>)
    ensures |s| == |queue| && forall i :: 0 <= i < |s| ==> s[i] == queue[|queue| - 1 - i]
  {
    seq(|queue|, i requires 0 <= i < |queue| => queue[|queue| - 1 - i])
  }

  // The recorder writes one packet more of a list that fits.
  lemma FeedNext(r: Recorder, ps: seq<RtpPacket>, n: nat)
    requires AllReadable(ps) && ListFits(r, ps) && n < |ps|
    ensures Readable(ps[n]) && Fits(FeedList(r, ps[..n]), ps[n])
    ensures FeedList(r, ps[..n + 1]) == WriteVideoData(FeedList(r, ps[..n]), ps[n])
  {
    hide Readable, Fits, WriteVideoData;
    assert ps[..n + 1][..n] == ps[..n];
  }

  // The end of sendLoop: the queue is drained whatever its depth, oldest packet first.
  method Drain(queue: RtpPacketQueue, output: ExternalOutput)
    requires queue.Valid() && output.Valid()
    requires AllReadable(OldestFirst(queue.queue)) && ListFits(output.View(), OldestFirst(queue.queue))
    modifies queue`queue, queue`lastGiven, output, output.unpackagedBuffer
    ensures queue.Valid() && queue.queue == [] && output.Valid()
    ensures output.View() == FeedList(old(output.View()), OldestFirst(old(queue.queue)))
  {
    hide AllReadable, ListFits, Readable, Fits, WriteVideoData, FeedList;
    ghost var all, start, n := OldestFirst(queue.queue), output.View(), 0;
    FedNothing(start, all);
    while |queue.queue| > 0
      invariant queue.Valid() && output.Valid() && 0 <= n <= |all| && AllReadable(all[..n])
      invariant n + |queue.queue| == |all| && all[n..] == OldestFirst(queue.queue)
      invariant output.View() == FeedList(start, all[..n])
      decreases |queue.queue|
    {
      assert all[n] == all[n..][0] && all[n..][1..] == all[n + 1..];
      FeedNext(start, all, n);
      var packet := queue.PopPacket(true);
      output.Write(packet.value);
      n := n + 1;
      AllReadablePrefix(all, n);
    }
    assert all[..n] == all;
  }

  // The loop of sendLoop that goes on while the queue has more than its configured depth.
  method SendDue(queue: RtpPacketQueue, output: ExternalOutput)
    requires queue.Valid() && output.Valid() && queue.depth >= 0.0
    requires AllReadable(OldestFirst(queue.queue)) && ListFits(output.View(), OldestFirst(queue.queue))
    modifies queue`queue, queue`lastGiven, output, output.unpackagedBuffer
    ensures queue.Valid() && queue.queue == Trim(old(queue.queue), queue.timebase, queue.depth) && output.Valid()
    ensures LongestWithin(old(queue.queue), |queue.queue|, queue.timebase, queue.depth)
    ensures var due := OldestFirst(old(queue.queue)[TrimmedLength(old(queue.queue), queue.timebase, queue.depth)..]);
      AllReadable(due) && output.View() == FeedList(old(output.View()), due)
  {
    hide AllReadable, ListFits, Readable, Fits, WriteVideoData, FeedList, Depth;
    ghost var was := queue.queue;
    ghost var all, start, n := OldestFirst(was), output.View(), 0;
    FedNothing(start, all);
    assert was[..|was|] == was;
    TrimmedIsLongest(was, queue.timebase, queue.depth);
    hide LongestWithin;
    var due := queue.HasData();
    while due
      invariant queue.Valid() && output.Valid() && 0 <= n <= |all| && AllReadable(all[..n])
      invariant due <==> Depth(queue.queue, queue.timebase) > queue.depth
      invariant n + |queue.queue| == |all| && queue.queue == was[..|queue.queue|]
      invariant TrimmedLength(queue.queue, queue.timebase, queue.depth) == TrimmedLength(was, queue.timebase, queue.depth)
      invariant output.View() == FeedList(start, all[..n])
      decreases |queue.queue|
    {
      assert queue.queue[|queue.queue| - 1] == all[n];
      FeedNext(start, all, n);
      var packet := queue.PopPacket(false);
      output.Write(packet.value);
      n := n + 1;
      AllReadablePrefix(all, n);
      due := queue.HasData();
    }
    assert all[..n] == OldestFirst(was[|queue.queue|..]);
  }

  lemma AllReadablePrefix(ps: seq<RtpPacket>, n: nat)
    requires AllReadable(ps) && n <= |ps|
    ensures AllReadable(ps[..n])
  {
  }

  lemma FedNothing(r: Recorder, ps: seq<RtpPacket>)
    ensures AllReadable(ps[..0]) && FeedList(r, ps[..0]) == r
  {
  }
}
