// ExternalOutput::queueData for video: RED packets go through the FEC receiver, which
// pushes what it hands up into the reorder queue; other packets are pushed at once. What
// the recorder writes at the end are frames that were sent.
module ProtectedRecording {
  import opened Bytes
  import opened SeqNum
  import opened Integers
  import opened Options
  import opened ParityCode
  import opened FecDecoder
  import opened FecMachine
  import opened FecReceiver
  import opened PacketQueue
  import opened VideoRecorder
  import Vp8Fragmenter
  import FecAuthentic
  import FecDelivery
  import FecRepair
  import Recording

  const VP8_90000_PT: byte := 100
  const ULP_90000_PT: byte := 117
  const RED_90000_PT: byte := 116

  // ---- RTP packets as octets -------------------------------------------------------------

  // The packet with an RTP header in front, without contributing sources or extension.
  function Wire(p: RtpPacket, ssrc: SsrcBytes): (w: Packet)
    ensures |w| == RTP_HEADER_SIZE + |p.payload|
  {
    [0x80, if p.marker then 0x80 + VP8_90000_PT else VP8_90000_PT, Hi(p.seqNum), Lo(p.seqNum)]
    + [Hi(p.timestamp / WRAP), Lo(p.timestamp / WRAP), Hi(p.timestamp % WRAP), Lo(p.timestamp % WRAP)] + ssrc + p.payload
  }

  // RtpHeader::getHeaderLength. The extension's length is read at a fixed place.
  function HeaderLength(w: Packet): (n: nat)
    ensures n >= RTP_HEADER_SIZE
  {
    RTP_HEADER_SIZE + 4 * NatOf(At(w, 0) & 0x0f) + (if At(w, 0) & 0x10 != 0 then 4 + 4 * U16(At(w, 14), At(w, 15)) else 0)
  }

  // What the queue and the recorder see of a packet.
  function Seen(w: Packet): RtpPacket {
    RtpPacket(ParseSequenceNumber(w), U16(At(w, 4), At(w, 5)) * WRAP + U16(At(w, 6), At(w, 7)), At(w, 1) & 0x80 != 0,
              if HeaderLength(w) <= |w| then w[HeaderLength(w)..] else [])
  }

  lemma PlainHeader(w: Packet)
    requires At(w, 0) == 0x80
    ensures HeaderLength(w) == RTP_HEADER_SIZE && Version2(w)
  {
    assert (0x80 as byte) & 0x0f == 0 && (0x80 as byte) & 0x10 == 0 && (0x80 as byte) & 0xc0 == 0x80;
  }

  lemma MarkerBit()
    ensures ((0x80 as byte) + VP8_90000_PT) & 0x80 != 0 && VP8_90000_PT & 0x80 == 0
  {
  }

  lemma TimestampRoundTrip(t: u32)
    ensures U16(Hi(t / WRAP), Lo(t / WRAP)) * WRAP + U16(Hi(t % WRAP), Lo(t % WRAP)) == t
  {
    hide Hi, Lo, U16;
    U16RoundTrip(t / WRAP);
    U16RoundTrip(t % WRAP);
  }

  // What is sent is seen.
  lemma SeenInvertsWire(p: RtpPacket, ssrc: SsrcBytes)
    ensures var w := Wire(p, ssrc);
      Seen(w) == p && Version2(w) && Carries(w, p.seqNum) && Ssrc(w) == ssrc
  {
    hide Hi, Lo, U16, NatOf;
    var w := Wire(p, ssrc);
    PlainHeader(w);
    MarkerBit();
    CarriesParsed(w, p.seqNum);
    TimestampRoundTrip(p.timestamp);
    assert w[RTP_HEADER_SIZE..] == p.payload;
  }

  // A header extension: its profile and its data, in words of four octets.
  datatype RtpExtension = RtpExtension(profile: u16, data: seq<byte>)

  predicate WellFormed(csrcs: seq<byte>, extension: Option<RtpExtension>) {
    && |csrcs| % 4 == 0 && |csrcs| <= 60
    && (extension.Some? ==> |extension.value.data| % 4 == 0 && |extension.value.data| / 4 < 0x10000)
  }

  function ExtensionBytes(extension: Option<RtpExtension>): seq<byte>
    requires WellFormed([], extension)
  {
    match extension
    case None => []
    case Some(e) => [Hi(e.profile), Lo(e.profile), Hi(|e.data| / 4), Lo(|e.data| / 4)] + e.data
  }

  // Version 2, the extension bit and the number of contributing sources.
  function FirstOctet(c: nat, x: bool): byte { 0x80 | (if x then 0x10 else 0) | ByteOf(c) }

  // The packet with contributing sources and an extension in its header.
  function FullWire(p: RtpPacket, ssrc: SsrcBytes, csrcs: seq<byte>, extension: Option<RtpExtension>): Packet
    requires WellFormed(csrcs, extension)
  {
    var plain := Wire(p, ssrc);
    [FirstOctet(|csrcs| / 4, extension.Some?)] + plain[1..RTP_HEADER_SIZE]
    + csrcs + ExtensionBytes(extension) + p.payload
  }

  lemma FirstOctetFields(c: nat, x: bool)
    requires c < 16
    ensures NatOf(FirstOctet(c, x) & 0x0f) == c && (FirstOctet(c, x) & 0x10 != 0 <==> x)
  {
    NatOfByteOfBits(c, 4);
    var low := ByteOf(c);
    assert FitsIn(low >> 1, 3) && FitsIn(low >> 1 >> 1, 2) && FitsIn(low >> 1 >> 1 >> 1, 1) && FitsIn(low >> 1 >> 1 >> 1 >> 1, 0);
    hide ByteOf, FitsIn, NatOf;
    assert low & 0xf0 == 0;
    assert (0x80 | (if x then 0x10 else 0) | low) & 0x0f == low;
  }

  lemma FullWireOctets(p: RtpPacket, ssrc: SsrcBytes, csrcs: seq<byte>, extension: Option<RtpExtension>)
    requires WellFormed(csrcs, extension)
    ensures var w, n := FullWire(p, ssrc, csrcs, extension), RTP_HEADER_SIZE + |csrcs| + |ExtensionBytes(extension)|;
      && |w| == n + |p.payload| && w[n..] == p.payload
      && w[0] == FirstOctet(|csrcs| / 4, extension.Some?)
      && (forall i :: 1 <= i < RTP_HEADER_SIZE ==> w[i] == Wire(p, ssrc)[i])
      && WellFormed([], extension)
      && (csrcs != [] ==> |w| > 15 && w[14] == csrcs[2] && w[15] == csrcs[3])
      && (csrcs == [] && extension.Some? ==> w[14] == Hi(|extension.value.data| / 4) && w[15] == Lo(|extension.value.data| / 4))
  {
    hide Wire, Hi, Lo, FirstOctet;
  }

  // The length of the extension is read behind the fixed header, also if contributing
  // sources stand there. So the header ends where it should exactly if there is no
  // extension, or there are no sources, or the first source happens to hold that length.
  lemma HeaderEndsExactly(p: RtpPacket, ssrc: SsrcBytes, csrcs: seq<byte>, extension: Option<RtpExtension>)
    requires WellFormed(csrcs, extension)
    ensures var w, n := FullWire(p, ssrc, csrcs, extension), RTP_HEADER_SIZE + |csrcs| + |ExtensionBytes(extension)|;
      && (HeaderLength(w) == n <==> extension.None? || csrcs == [] || U16(csrcs[2], csrcs[3]) == |extension.value.data| / 4)
      && (HeaderLength(w) == n ==> Seen(w) == p)
  {
    hide *;
    FullWireOctets(p, ssrc, csrcs, extension);
    SeenInvertsWire(p, ssrc);
    var w := FullWire(p, ssrc, csrcs, extension);
    HeaderLengthIs(w, csrcs, extension);
    if HeaderLength(w) == RTP_HEADER_SIZE + |csrcs| + |ExtensionBytes(extension)| {
      SeenAlike(w, Wire(p, ssrc), p);
    }
  }

  lemma HeaderLengthIs(w: Packet, csrcs: seq<byte>, extension: Option<RtpExtension>)
    requires WellFormed(csrcs, extension) && |w| >= RTP_HEADER_SIZE + |csrcs| + |ExtensionBytes(extension)|
    requires w[0] == FirstOctet(|csrcs| / 4, extension.Some?)
    requires csrcs != [] ==> |w| > 15 && w[14] == csrcs[2] && w[15] == csrcs[3]
    requires csrcs == [] && extension.Some? ==> w[14] == Hi(|extension.value.data| / 4) && w[15] == Lo(|extension.value.data| / 4)
    ensures HeaderLength(w) == RTP_HEADER_SIZE + |csrcs| + |ExtensionBytes(extension)| <==>
      extension.None? || csrcs == [] || U16(csrcs[2], csrcs[3]) == |extension.value.data| / 4
  {
    FirstOctetFields(|csrcs| / 4, extension.Some?);
    if extension.Some? {
      U16RoundTrip(|extension.value.data| / 4);
    }
    hide Hi, Lo, U16, NatOf, FirstOctet;
  }

  lemma SeenAlike(w: Packet, plain: Packet, p: RtpPacket)
    requires |w| >= RTP_HEADER_SIZE && |plain| >= RTP_HEADER_SIZE && Seen(plain) == p
    requires forall i :: 1 <= i < RTP_HEADER_SIZE ==> w[i] == plain[i]
    requires HeaderLength(w) <= |w| && w[HeaderLength(w)..] == p.payload
    ensures Seen(w) == p
  {
    hide U16, NatOf, HeaderLength;
  }

  // ---- A stream of packetized frames is what the FEC code asks for -------------------------

  // Packet k of a frame has number u + k and a payload that fits.
  lemma FramePacket(f: Frame, u: int, k: nat)
    requires k < Count(f)
    ensures PacketsOf(f, u)[k].seqNum == (u + k) % WRAP && |PacketsOf(f, u)[k].payload| <= Vp8Fragmenter.FRAGMENT_SIZE + 1
  {
    hide Vp8Fragmenter.Fragments;
    Vp8Fragmenter.PacketAt(f.data, Vp8Fragmenter.Fragments(|f.data|, 0), u, f.timestamp, k);
    Vp8Fragmenter.FragmentsTile(|f.data|, 0);
  }

  lemma {:induction false} StreamPacket(frames: seq<Frame>, u: int, k: nat)
    requires k < |Recording.Stream(frames, u)|
    ensures var p := Recording.Stream(frames, u)[k];
      p.seqNum == (u + k) % WRAP && |p.payload| <= Vp8Fragmenter.FRAGMENT_SIZE + 1
    decreases |frames|
  {
    hide PacketsOf, Count;
    var n := Count(frames[0]);
    assert |PacketsOf(frames[0], u)| == n by { Recording.FirstFrame(frames, u, {}); PacketsCount(frames[0], u); }
    if k < n {
      FramePacket(frames[0], u, k);
    } else {
      StreamPacket(frames[1..], u + n, k - n);
    }
  }

  lemma PacketsCount(f: Frame, u: int)
    ensures |PacketsOf(f, u)| == Count(f)
  {
    hide Vp8Fragmenter.Fragments;
  }

  // The frames on the wire, under their unwrapped numbers.
  function OnTheWire(frames: seq<Frame>, u: int, ssrc: SsrcBytes): FecAuthentic.Stream {
    var ps := Recording.Stream(frames, u);
    map v | u <= v < u + |ps| :: WireOf(ps, u, v, ssrc)
  }

  function WireOf(ps: seq<RtpPacket>, u: int, v: int, ssrc: SsrcBytes): Packet
    requires u <= v < u + |ps|
  {
    Wire(ps[v - u], ssrc)
  }

  lemma WireIsGood(frames: seq<Frame>, u: int, ssrc: SsrcBytes)
    ensures FecAuthentic.GoodStream(OnTheWire(frames, u, ssrc), ssrc)
  {
    hide Version2, Carries, Ssrc, Wire, Recording.Stream;
    var sent, ps := OnTheWire(frames, u, ssrc), Recording.Stream(frames, u);
    forall v | v in sent
      ensures MediaSized(sent[v]) && |sent[v]| <= IP_PACKET_SIZE && Version2(sent[v]) && Carries(sent[v], v % WRAP) && Ssrc(sent[v]) == ssrc
    {
      StreamPacket(frames, u, v - u);
      SeenInvertsWire(ps[v - u], ssrc);
    }
  }

  // ---- From the FEC receiver into the queue ------------------------------------------------

  // A RED packet makes a call of the FEC receiver, with the window that is live then; any
  // other event is the queue's own: a packet pushed as it is, a pop, a new time base.
  datatype Arrival = Red(call: FecAuthentic.Call) | Direct(event: Event)

  function CallsOf(arrivals: seq<Arrival>): seq<FecAuthentic.Call> {
    if arrivals == [] then []
    else (if arrivals[0].Red? then [arrivals[0].call] else []) + CallsOf(arrivals[1..])
  }

  // What a call hands up, as the queue sees it, with its unwrapped numbers.
  function UpItems(c: FecAuthentic.Call, st: State): (items: seq<Item>)
    ensures |items| == |Process(st, c.batch).1|
    ensures forall i :: 0 <= i < |items| ==> items[i].packet == Seen(Process(st, c.batch).1[i])
  {
    var keys, up := FecDelivery.UpNumbers(st, c.batch), Process(st, c.batch).1;
    seq(|up|, i requires 0 <= i < |up| => Item(Unwrap(c.base, keys[i]), Seen(up[i])))
  }

  function Pushes(items: seq<Item>): seq<Event> {
    if items == [] then [] else Pushes(items[..|items| - 1]) + [PushEvent(items[|items| - 1])]
  }

  // OnRecoveredPacket pushes whatever is handed up.
  function EventsOf(st: State, arrivals: seq<Arrival>): seq<Event>
    decreases |arrivals|
  {
    if arrivals == [] then []
    else match arrivals[0]
      case Red(c) => Pushes(UpItems(c, st)) + EventsOf(Process(st, c.batch).0, arrivals[1..])
      case Direct(e) => [e] + EventsOf(st, arrivals[1..])
  }

  lemma {:induction false} PushedJoined(es: seq<Event>, fs: seq<Event>)
    ensures Pushed(es + fs) == Pushed(es) + Pushed(fs)
  {
    if fs == [] {
      assert es + fs == es;
    } else {
      assert (es + fs)[..|es + fs| - 1] == es + fs[..|fs| - 1];
      PushedJoined(es, fs[..|fs| - 1]);
    }
  }

  lemma {:induction false} PushedPushes(items: seq<Item>)
    ensures Pushed(Pushes(items)) == items
  {
    if items != [] {
      PushedPushes(items[..|items| - 1]);
    }
  }

  // Direct pushes are packets of the stream.
  ghost predicate DirectFromStream(arrivals: seq<Arrival>, ps: seq<RtpPacket>, u: int) {
    forall i :: 0 <= i < |arrivals| && arrivals[i].Direct? && arrivals[i].event.PushEvent? ==> Recording.FromStream(arrivals[i].event.item, ps, u)
  }

  lemma UpFromStream(c: FecAuthentic.Call, frames: seq<Frame>, u: int, ssrc: SsrcBytes, st: State)
    requires FecDelivery.SentUnder(c.base, OnTheWire(frames, u, ssrc), FecDelivery.UpNumbers(st, c.batch), Process(st, c.batch).1)
    ensures Recording.AllFromStream(UpItems(c, st), Recording.Stream(frames, u), u)
  {
    hide Process, FecDelivery.UpNumbers, Unwrap, Seen, Wire, Recording.Stream;
    var items, ps, keys, up := UpItems(c, st), Recording.Stream(frames, u), FecDelivery.UpNumbers(st, c.batch), Process(st, c.batch).1;
    forall i | 0 <= i < |items|
      ensures Recording.FromStream(items[i], ps, u)
    {
      assert FecAuthentic.WasSent(c.base, OnTheWire(frames, u, ssrc), keys[i], up[i]);
      SeenInvertsWire(ps[Unwrap(c.base, keys[i]) - u], ssrc);
    }
  }

  // Whatever reaches the queue is a packet of the stream, under its own number.
  lemma {:induction false} PushedFromStream(b: int, frames: seq<Frame>, u: int, ssrc: SsrcBytes, st: State, arrivals: seq<Arrival>)
    requires FecAuthentic.Invariant(b, OnTheWire(frames, u, ssrc), ssrc, st)
    requires FecDelivery.LegalReceiverRun(b, OnTheWire(frames, u, ssrc), ssrc, st, CallsOf(arrivals))
    requires DirectFromStream(arrivals, Recording.Stream(frames, u), u)
    ensures Recording.AllFromStream(Pushed(EventsOf(st, arrivals)), Recording.Stream(frames, u), u)
    decreases |arrivals|
  {
    FirstArrival(st, arrivals);
    hide *;
    if arrivals == [] {
      NoneFromStream(Recording.Stream(frames, u), u);
    } else {
      var rest := arrivals[1..];
      DirectRest(arrivals, Recording.Stream(frames, u), u);
      match arrivals[0]
      case Red(c) =>
        RedArrives(b, frames, u, ssrc, st, c, CallsOf(arrivals));
        PushedFromStream(c.base, frames, u, ssrc, Process(st, c.batch).0, rest);
        AllJoined(UpItems(c, st), EventsOf(Process(st, c.batch).0, rest), Recording.Stream(frames, u), u);
      case Direct(e) =>
        PushedFromStream(b, frames, u, ssrc, st, rest);
        DirectJoined(e, EventsOf(st, rest), Recording.Stream(frames, u), u);
    }
  }

  lemma FirstArrival(st: State, arrivals: seq<Arrival>)
    ensures arrivals != [] && arrivals[0].Red? ==>
      var c := arrivals[0].call;
      && CallsOf(arrivals) == [c] + CallsOf(arrivals[1..])
      && EventsOf(st, arrivals) == Pushes(UpItems(c, st)) + EventsOf(Process(st, c.batch).0, arrivals[1..])
    ensures arrivals != [] && arrivals[0].Direct? ==>
      && CallsOf(arrivals) == CallsOf(arrivals[1..])
      && EventsOf(st, arrivals) == [arrivals[0].event] + EventsOf(st, arrivals[1..])
    ensures arrivals == [] ==> EventsOf(st, arrivals) == []
  {
    hide Process, UpItems, Pushes;
  }

  lemma DirectRest(arrivals: seq<Arrival>, ps: seq<RtpPacket>, u: int)
    requires arrivals != [] && DirectFromStream(arrivals, ps, u)
    ensures DirectFromStream(arrivals[1..], ps, u)
    ensures arrivals[0].Direct? && arrivals[0].event.PushEvent? ==> Recording.FromStream(arrivals[0].event.item, ps, u)
  {
    hide Recording.FromStream;
  }

  lemma NoneFromStream(ps: seq<RtpPacket>, u: int)
    ensures Recording.AllFromStream(Pushed([]), ps, u)
  {
  }

  lemma AllJoined(items: seq<Item>, es: seq<Event>, ps: seq<RtpPacket>, u: int)
    requires Recording.AllFromStream(items, ps, u) && Recording.AllFromStream(Pushed(es), ps, u)
    ensures Recording.AllFromStream(Pushed(Pushes(items) + es), ps, u)
  {
    hide Recording.FromStream, Pushed, Pushes;
    PushedPushes(items);
    PushedJoined(Pushes(items), es);
  }

  lemma DirectJoined(e: Event, es: seq<Event>, ps: seq<RtpPacket>, u: int)
    requires e.PushEvent? ==> Recording.FromStream(e.item, ps, u)
    requires Recording.AllFromStream(Pushed(es), ps, u)
    ensures Recording.AllFromStream(Pushed([e] + es), ps, u)
  {
    hide Recording.FromStream;
    PushedJoined([e], es);
    assert [e][..0] == [];
  }

  lemma RedArrives(b: int, frames: seq<Frame>, u: int, ssrc: SsrcBytes, st: State, c: FecAuthentic.Call, calls: seq<FecAuthentic.Call>)
    requires FecAuthentic.Invariant(b, OnTheWire(frames, u, ssrc), ssrc, st) && calls != [] && calls[0] == c
    requires FecDelivery.LegalReceiverRun(b, OnTheWire(frames, u, ssrc), ssrc, st, calls)
    ensures FecAuthentic.Invariant(c.base, OnTheWire(frames, u, ssrc), ssrc, Process(st, c.batch).0)
    ensures FecDelivery.LegalReceiverRun(c.base, OnTheWire(frames, u, ssrc), ssrc, Process(st, c.batch).0, calls[1..])
    ensures Recording.AllFromStream(UpItems(c, st), Recording.Stream(frames, u), u)
  {
    hide FecAuthentic.Invariant, Process, UpItems, OnTheWire, Recording.Stream, FecAuthentic.StaysLive, FecDelivery.CallLegal, Recording.AllFromStream;
    WireIsGood(frames, u, ssrc);
    FecAuthentic.MoveWindow(b, c.base, OnTheWire(frames, u, ssrc), ssrc, st);
    FecDelivery.ProcessKeeps(c.base, OnTheWire(frames, u, ssrc), ssrc, st, c.batch);
    UpFromStream(c, frames, u, ssrc, st);
  }

  // From end to end with FEC: frames are packetized, sent with FEC packets, and lost,
  // reordered or duplicated; what the FEC receiver hands up, recovered packets and those
  // that go up twice included, goes through the queue, which gives no number out twice.
  // The recorder stays within its buffer and writes exactly the frames whose packets all
  // came out, except those that straddle a wrap, byte for byte and in order.
  lemma RecordsProtectedFrames(b: int, arrivals: seq<Arrival>, depth: real, maxDepth: real, frames: seq<Frame>, u: int, ssrc: SsrcBytes, last: u16)
    requires maxDepth >= 0.0 && Recording.NonEmpty(frames) && Recording.Bounded(frames)
    requires FecDelivery.LegalReceiverRun(b, OnTheWire(frames, u, ssrc), ssrc, State([], []), CallsOf(arrivals))
    requires DirectFromStream(arrivals, Recording.Stream(frames, u), u)
    requires LegalEvents(EventsOf(State([], []), arrivals), depth, maxDepth)
    ensures var events := EventsOf(State([], []), arrivals);
      var arrived, given := Recording.ItemNumbers(Run(EMPTY, events, depth, maxDepth).given), Calls(events, depth, maxDepth).given;
      var start := Recorder(LookingForStart, [], last, []);
      && Recording.Increasing(Run(EMPTY, events, depth, maxDepth).given)
      && AllReadable(given) && Recording.ListFits(start, given)
      && Recording.FeedList(start, given).written == Recording.Whole(frames, u, arrived)
  {
    var events := EventsOf(State([], []), arrivals);
    FecRepair.NothingYet(b, OnTheWire(frames, u, ssrc), ssrc);
    hide *;
    PushedFromStream(b, frames, u, ssrc, State([], []), arrivals);
    Recording.GivenHaveShortLosses(events, depth, maxDepth);
    Recording.RecordsWholeFrames(events, depth, maxDepth, frames, u, last);
  }

  // ---- The method --------------------------------------------------------------------------

  // What AddReceivedRedPacket takes from a RED packet of a single block.
  function Batch(buffer: seq<byte>): seq<ReceivedPacket>
    requires HeaderLength(buffer) < |buffer| <= IP_PACKET_SIZE
  {
    var rx := StripRed(buffer, HeaderLength(buffer), ParseSequenceNumber(buffer), ULP_90000_PT);
    if rx.ReceivedFec? && rx.fec == [] then [] else [rx]
  }

  // The queue after packets have been pushed one after the other.
  function PushAll(queue: seq<RtpPacket>, lastGiven: int, timebase: nat, maxDepth: real, ps: seq<Packet>): seq<RtpPacket>
    requires -1 <= lastGiven < WRAP && maxDepth >= 0.0
  {
    if ps == [] then queue
    else Push(PushAll(queue, lastGiven, timebase, maxDepth, ps[..|ps| - 1]), lastGiven, timebase, maxDepth, Seen(ps[|ps| - 1]))
  }

  predicate IsRed(buffer: seq<byte>) { At(buffer, 1) & 0x7f == RED_90000_PT }

  // OnRecoveredPacket, once for each packet that is handed up.
  method PushEach(queue: RtpPacketQueue, ps: seq<Packet>)
    requires queue.Valid()
    modifies queue`queue
    ensures queue.Valid() && queue.queue == PushAll(old(queue.queue), queue.lastGiven, queue.timebase, queue.maxDepth, ps)
  {
    hide Seen, Push;
    ghost var was := queue.queue;
    assert ps[..0] == [] && ps[..|ps|] == ps;
    for i := 0 to |ps|
      invariant queue.Valid()
      invariant queue.queue == PushAll(was, queue.lastGiven, queue.timebase, queue.maxDepth, ps[..i])
    {
      assert ps[..i + 1][..i] == ps[..i];
      queue.PushPacket(Seen(ps[i]));
    }
  }

  // The video branch of queueData. The callback's pushes are made once the receiver is done.
  method QueueData(receiver: FecReceiverImpl, queue: RtpPacketQueue, buffer: seq<byte>, ghost b: int)
    requires queue.Valid() && receiver.received == []
    requires IsRed(buffer) ==>
      && HeaderLength(buffer) < |buffer| <= IP_PACKET_SIZE && buffer[HeaderLength(buffer)] & 0x80 == 0
      && Decodable(b, State(receiver.fec.fecs, receiver.recovered), Batch(buffer))
    modifies receiver, receiver.fec, queue`queue
    ensures queue.Valid() && receiver.received == []
    ensures var st := State(old(receiver.fec.fecs), old(receiver.recovered));
      var (next, up) := if IsRed(buffer) then Process(st, Batch(buffer)) else (st, [buffer]);
      && State(receiver.fec.fecs, receiver.recovered) == next
      && queue.queue == PushAll(old(queue.queue), queue.lastGiven, queue.timebase, queue.maxDepth, up)
  {
    hide Decodable, Seen, StripRed, Process, Push, HeaderLength;
    if IsRed(buffer) {
      var n := |receiver.delivered|;
      var code := receiver.AddReceivedRedPacket(HeaderLength(buffer), ParseSequenceNumber(buffer), buffer, ULP_90000_PT);
      assert receiver.received == Batch(buffer);
      if code == 0 {
        var code' := receiver.ProcessReceivedFec(b);
      }
      assert receiver.delivered[n..] == Process(State(old(receiver.fec.fecs), old(receiver.recovered)), Batch(buffer)).1;
      PushEach(queue, receiver.delivered[n..]);
    } else {
      assert [buffer][..0] == [];
      queue.PushPacket(Seen(buffer));
    }
  }
}
