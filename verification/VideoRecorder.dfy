// ExternalOutput::writeVideoData: frames are put together again from the packets
// of a lossy stream.
module VideoRecorder {
  import opened Bytes
  import opened SeqNum
  import opened Integers
  import opened Buffers
  import opened Vp8Payload
  import opened Vp8Parser
  import opened PacketQueue
  import opened Vp8Fragmenter

  const UNPACKAGE_BUFFER_SIZE := 200000

  datatype SearchState = LookingForStart | LookingForEnd

  // pending is the used part of the unpackaged buffer; written is what has been given
  // to the output file.
  datatype Recorder = Recorder(search: SearchState, pending: seq<byte>, last: u16, written: seq<seq<byte>>)

  predicate Readable(p: RtpPacket) { p.payload != [] && Parse(p.payload).Parsed? }

  // A gap in the sequence numbers discards what has been collected. The successor of
  // the last number is not reduced modulo 2^16, so 0 never succeeds 65535.
  function CheckGap(r: Recorder, seqNum: u16): Recorder {
    if seqNum != r.last + 1 then r.(search := LookingForStart, pending := [], last := seqNum) else r.(last := seqNum)
  }

  // The switch over the search state, for a packet with these flags and this data.
  function Collect(r: Recorder, start: bool, end: bool, data: seq<byte>): Recorder {
    match r.search
    case LookingForStart =>
      if start && end then r.(pending := [], written := r.written + [data])
      else if start then r.(pending := r.pending + data, search := LookingForEnd)
      else r.(pending := [])
    case LookingForEnd =>
      if start && end then r.(search := LookingForStart, pending := [], written := r.written + [data])
      else if start then r.(pending := data)
      else if end then r.(search := LookingForStart, pending := [], written := r.written + [r.pending + data])
      else r.(pending := r.pending + data)
  }

  // writeVideoData, with the output streams initialised.
  function WriteVideoData(r: Recorder, p: RtpPacket): Recorder
    requires Readable(p)
  {
    var v := Parse(p.payload);
    Collect(CheckGap(r, p.seqNum), v.descriptor.start, p.marker, v.data)
  }

  // How much of the buffer is used once the data of a packet is stored.
  function Space(r: Recorder, start: bool, end: bool, data: seq<byte>): nat {
    match r.search
    case LookingForStart => if start && end then |data| else if start then |r.pending| + |data| else 0
    case LookingForEnd => if start then |data| else |r.pending| + |data|
  }

  // The buffer has room for the packet, which writeVideoData does not check.
  predicate Fits(r: Recorder, p: RtpPacket)
    requires Readable(p)
  {
    var v := Parse(p.payload);
    Space(CheckGap(r, p.seqNum), v.descriptor.start, p.marker, v.data) <= UNPACKAGE_BUFFER_SIZE
  }

  class ExternalOutput {
    var search: SearchState
    const unpackagedBuffer: array<byte>
    var unpackagedSize: nat
    var lastSequenceNumber: u16
    var written: seq<seq<byte>>

    ghost predicate Valid()
      reads this
    {
      unpackagedBuffer.Length == UNPACKAGE_BUFFER_SIZE && unpackagedSize <= UNPACKAGE_BUFFER_SIZE
    }

    ghost function View(): Recorder
      reads this, unpackagedBuffer
      requires Valid()
    {
      Recorder(search, unpackagedBuffer[..unpackagedSize], lastSequenceNumber, written)
    }

    // The last sequence number has no initial value of its own.
    constructor (lastSequenceNumber: u16)
      ensures Valid() && fresh(unpackagedBuffer) && View() == Recorder(LookingForStart, [], lastSequenceNumber, [])
    {
      search, unpackagedSize, written := LookingForStart, 0, [];
      this.lastSequenceNumber := lastSequenceNumber;
      unpackagedBuffer := new byte[UNPACKAGE_BUFFER_SIZE](_ => 0);
    }

    method Append(data: seq<byte>)
      requires Valid() && unpackagedSize + |data| <= UNPACKAGE_BUFFER_SIZE
      modifies this`unpackagedSize, unpackagedBuffer
      ensures Valid() && unpackagedBuffer[..unpackagedSize] == old(unpackagedBuffer[..unpackagedSize]) + data
    {
      MemCpy(unpackagedBuffer, unpackagedSize, data);
      unpackagedSize := unpackagedSize + |data|;
    }

    method Write(p: RtpPacket)
      requires Valid() && Readable(p) && Fits(View(), p)
      modifies this, unpackagedBuffer
      ensures Valid() && View() == WriteVideoData(old(View()), p)
    {
      hide Parse;
      if p.seqNum != lastSequenceNumber + 1 {
        search := LookingForStart;
        unpackagedSize := 0;
      }
      lastSequenceNumber := p.seqNum;
      ghost var r := View();
      assert r == CheckGap(old(View()), p.seqNum);
      var v := ParseVP8(p.payload);
      CollectPacket(v.descriptor.start, p.marker, v.data);
    }

    method CollectPacket(start: bool, end: bool, data: seq<byte>)
      requires Valid() && Space(View(), start, end, data) <= UNPACKAGE_BUFFER_SIZE
      modifies this`search, this`unpackagedSize, this`written, unpackagedBuffer
      ensures Valid() && View() == Collect(old(View()), start, end, data)
    {
      var deliver := false;
      match search {
        case LookingForStart =>
          if start && end {
            unpackagedSize := 0;
            Append(data);
            assert unpackagedBuffer[..unpackagedSize] == data;
            deliver := true;
          } else if !start && !end {
            unpackagedSize := 0;
          } else if start && !end {
            Append(data);
            search := LookingForEnd;
          } else {
            unpackagedSize := 0;
          }
        case LookingForEnd =>
          if start && end {
            search := LookingForStart;
            unpackagedSize := 0;
            Append(data);
            assert unpackagedBuffer[..unpackagedSize] == data;
            deliver := true;
          } else if !start && !end {
            Append(data);
          } else if start && !end {
            unpackagedSize := 0;
            Append(data);
            assert unpackagedBuffer[..unpackagedSize] == data;
          } else {
            search := LookingForStart;
            Append(data);
            deliver := true;
          }
      }
      if deliver {
        written := written + [unpackagedBuffer[..unpackagedSize]];
        unpackagedSize := 0;
      }
      assert unpackagedSize == 0 ==> unpackagedBuffer[..unpackagedSize] == [];
    }
  }

  // ---- A lossy stream of packetized frames ---------------------------------------------

  datatype Frame = Frame(data: seq<byte>, timestamp: u32)

  function PacketsOf(f: Frame, u: int): seq<RtpPacket> { Packetize(f.data, u, f.timestamp) }

  function Count(f: Frame): nat { |Fragments(|f.data|, 0)| }

  lemma PacketReadable(f: Frame, u: int, k: nat)
    requires k < Count(f)
    ensures var p, part := PacketsOf(f, u)[k], Fragments(|f.data|, 0)[k];
      && Readable(p) && p.seqNum == (u + k) % WRAP && p.marker == (k == Count(f) - 1)
      && Parse(p.payload).data == Part(f.data, part) && Parse(p.payload).descriptor.start == (k == 0)
  {
    hide Fragments, Parse, WriteFragment;
    PacketAt(f.data, Fragments(|f.data|, 0), u, f.timestamp, k);
    FragmentsTile(|f.data|, 0);
    FragmentParses(f.data, Fragments(|f.data|, 0)[k]);
  }

  ghost predicate AllReadable(ps: seq<RtpPacket>) { forall i :: 0 <= i < |ps| ==> Readable(ps[i]) }

  lemma FrameReadable(f: Frame, u: int)
    ensures AllReadable(PacketsOf(f, u))
  {
    hide Readable, Packetize;
    forall k | 0 <= k < |PacketsOf(f, u)|
      ensures Readable(PacketsOf(f, u)[k])
    {
      PacketReadable(f, u, k);
    }
  }

  // The recorder after those of the first k packets of a stream that arrived. The
  // packets are numbered from u on.
  ghost function Feed(r: Recorder, ps: seq<RtpPacket>, u: int, arrived: set<int>, k: nat): Recorder
    requires k <= |ps| && AllReadable(ps)
  {
    if k == 0 then r
    else
      var before := Feed(r, ps, u, arrived, k - 1);
      if u + k - 1 in arrived then WriteVideoData(before, ps[k - 1]) else before
  }

  // The first k packets of the frame all arrived, and number 0 is not among those
  // behind the first.
  predicate Intact(u: int, k: nat, arrived: set<int>) {
    k == 0 || (Intact(u, k - 1, arrived) && u + k - 1 in arrived && (k > 1 ==> (u + k - 1) % WRAP != 0))
  }

  // Fewer than 2^16 packets are lost in a row.
  ghost predicate ShortLosses(arrived: set<int>) {
    forall a, b :: a in arrived && b in arrived && a < b && (forall c :: a < c < b ==> c !in arrived) ==> b - a <= WRAP
  }

  // l is the last number below n that arrived.
  ghost predicate LastArrived(l: int, n: int, arrived: set<int>) {
    l < n && l in arrived && forall c :: l < c < n ==> c !in arrived
  }

  // Before number n nothing of the frame that n belongs to is being collected: either
  // the recorder looks for a start with an empty buffer, or packets are missing since.
  ghost predicate Idle(r: Recorder, n: int, arrived: set<int>) {
    && (r.search.LookingForStart? ==> r.pending == [])
    && (r.search.LookingForEnd? ==> exists l :: LastArrived(l, n - 1, arrived) && n - 1 !in arrived && r.last == l % WRAP)
  }

  // The parts before part k have been collected.
  ghost predicate Collecting(r: Recorder, f: Frame, u: int, k: nat)
    requires 0 < k < Count(f)
  {
    && r.search.LookingForEnd? && r.last == (u + k - 1) % WRAP
    && Fragments(|f.data|, 0)[k].position <= |f.data| && r.pending == f.data[..Fragments(|f.data|, 0)[k].position]
  }

  lemma IdleGoesOn(r: Recorder, n: int, arrived: set<int>)
    requires Idle(r, n, arrived) && n !in arrived
    ensures Idle(r, n + 1, arrived)
  {
    if r.search.LookingForEnd? {
      var l :| LastArrived(l, n - 1, arrived) && n - 1 !in arrived && r.last == l % WRAP;
      assert LastArrived(l, n, arrived);
    }
  }

  // An idle recorder that still looks for an end notices the gap.
  lemma IdleNotices(r: Recorder, n: int, arrived: set<int>)
    requires Idle(r, n, arrived) && n in arrived && ShortLosses(arrived)
    ensures CheckGap(r, n % WRAP) == r.(search := LookingForStart, pending := [], last := n % WRAP)
  {
    if r.search.LookingForEnd? {
      var l :| LastArrived(l, n - 1, arrived) && n - 1 !in arrived && r.last == l % WRAP;
      assert forall c :: l < c < n ==> c !in arrived;
      assert 2 <= n - l <= WRAP;
      NotSuccessor(l, n);
    }
  }

  lemma NotSuccessor(l: int, n: int)
    requires 2 <= n - l <= WRAP
    ensures n % WRAP != l % WRAP + 1
  {
  }

  lemma Successor(n: int)
    ensures n % WRAP == (n - 1) % WRAP + 1 <==> n % WRAP != 0
  {
  }

  // The whole frame is written when its last part completes it; otherwise the recorder
  // is collecting the intact parts, or idle.
  ghost predicate FrameState(r0: Recorder, r: Recorder, f: Frame, u: int, arrived: set<int>, k: nat)
    requires k <= Count(f)
  {
    if Intact(u, k, arrived) && 0 < k < Count(f) then
      Collecting(r, f, u, k) && r.written == r0.written
    else if Intact(u, k, arrived) && 0 < k then
      r.search.LookingForStart? && r.pending == [] && r.written == r0.written + [f.data]
    else
      Idle(r, u + k, arrived) && r.written == r0.written
  }

  lemma FirstPart(r0: Recorder, r: Recorder, f: Frame, u: int, arrived: set<int>)
    requires Count(f) > 0 && Idle(r, u, arrived) && u in arrived && ShortLosses(arrived) && r.written == r0.written
    ensures Readable(PacketsOf(f, u)[0])
    ensures FrameState(r0, WriteVideoData(r, PacketsOf(f, u)[0]), f, u, arrived, 1)
  {
    hide Fragments, Parse, Packetize;
    PacketReadable(f, u, 0);
    FragmentsTile(|f.data|, 0);
    IdleNotices(r, u, arrived);
    assert Intact(u, 1, arrived);
    assert |f.data| > 0 ==> f.data[0..|f.data|] == f.data;
  }

  lemma NextPart(r0: Recorder, r: Recorder, f: Frame, u: int, arrived: set<int>, k: nat)
    requires 0 < k < Count(f) && Intact(u, k, arrived) && Collecting(r, f, u, k) && r.written == r0.written
    requires u + k in arrived
    ensures Readable(PacketsOf(f, u)[k])
    ensures FrameState(r0, WriteVideoData(r, PacketsOf(f, u)[k]), f, u, arrived, k + 1)
  {
    hide Fragments, Parse, Packetize;
    PacketReadable(f, u, k);
    FragmentsTile(|f.data|, 0);
    Successor(u + k);
    var fs := Fragments(|f.data|, 0);
    assert f.data[..fs[k].position] + Part(f.data, fs[k]) == f.data[..fs[k].position + fs[k].size];
    assert f.data[..|f.data|] == f.data;
    if (u + k) % WRAP != 0 {
      assert Intact(u, k + 1, arrived);
      assert k + 1 < Count(f) ==> fs[k + 1].position == fs[k + 1 - 1].position + fs[k + 1 - 1].size;
    } else {
      assert !Intact(u, k + 1, arrived);
    }
  }

  lemma LostPart(r0: Recorder, r: Recorder, f: Frame, u: int, arrived: set<int>, k: nat)
    requires k < Count(f) && FrameState(r0, r, f, u, arrived, k) && u + k !in arrived
    ensures FrameState(r0, r, f, u, arrived, k + 1)
  {
    hide Fragments;
    assert !Intact(u, k + 1, arrived);
    if Intact(u, k, arrived) && 0 < k {
      assert u + (k - 1) in arrived;
      assert LastArrived(u + k - 1, u + k, arrived);
    } else {
      IdleGoesOn(r, u + k, arrived);
    }
  }

  lemma StrayPart(r0: Recorder, r: Recorder, f: Frame, u: int, arrived: set<int>, k: nat)
    requires 0 < k < Count(f) && !Intact(u, k, arrived) && Idle(r, u + k, arrived) && r.written == r0.written
    requires u + k in arrived && ShortLosses(arrived)
    ensures Readable(PacketsOf(f, u)[k])
    ensures FrameState(r0, WriteVideoData(r, PacketsOf(f, u)[k]), f, u, arrived, k + 1)
  {
    hide Fragments, Parse, Packetize;
    PacketReadable(f, u, k);
    IdleNotices(r, u + k, arrived);
    assert !Intact(u, k + 1, arrived);
  }

  // A part fits the buffer exactly if it does not complete an intact beginning of the
  // frame that is longer than the buffer.
  lemma PartFits(r0: Recorder, r: Recorder, f: Frame, u: int, arrived: set<int>, k: nat)
    requires k < Count(f) && FrameState(r0, r, f, u, arrived, k) && u + k in arrived && ShortLosses(arrived)
    ensures Readable(PacketsOf(f, u)[k])
    ensures Fits(r, PacketsOf(f, u)[k]) <==> PrefixFits(f, u, arrived, k)
  {
    hide Fragments, Parse, Packetize;
    PacketReadable(f, u, k);
    FragmentsTile(|f.data|, 0);
    Successor(u + k);
    if k == 0 || !Intact(u, k, arrived) {
      IdleNotices(r, u + k, arrived);
    }
  }

  predicate PrefixFits(f: Frame, u: int, arrived: set<int>, k: nat)
    requires k < Count(f)
  {
    var part := Fragments(|f.data|, 0)[k];
    Intact(u, k + 1, arrived) ==> part.position + part.size <= UNPACKAGE_BUFFER_SIZE
  }

  lemma {:induction false} FeedFrame(r: Recorder, f: Frame, u: int, arrived: set<int>, k: nat)
    requires k <= Count(f) && Idle(r, u, arrived) && ShortLosses(arrived)
    ensures AllReadable(PacketsOf(f, u))
    ensures FrameState(r, Feed(r, PacketsOf(f, u), u, arrived, k), f, u, arrived, k)
  {
    hide Fragments, Packetize, WriteVideoData, Readable, ShortLosses, Collecting;
    FrameReadable(f, u);
    if k > 0 {
      FeedFrame(r, f, u, arrived, k - 1);
      var before := Feed(r, PacketsOf(f, u), u, arrived, k - 1);
      if u + k - 1 !in arrived {
        LostPart(r, before, f, u, arrived, k - 1);
      } else if k == 1 {
        FirstPart(r, before, f, u, arrived);
      } else if Intact(u, k - 1, arrived) {
        NextPart(r, before, f, u, arrived, k - 1);
      } else {
        StrayPart(r, before, f, u, arrived, k - 1);
      }
    }
  }
}
