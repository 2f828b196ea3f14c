// RtpVP8Fragmenter and OutputProcessor::packageVideo: an encoded frame becomes
// RTP packets, each with a one-octet payload descriptor in front of its part.
module Vp8Fragmenter {
  import opened Options
  import opened Bytes
  import opened SeqNum
  import opened Integers
  import opened Vp8Payload
  import opened PacketQueue

  // Payload octets of a fragment without the descriptor: MAX_SIZE - 1.
  const FRAGMENT_SIZE: nat := 1099

  datatype Fragment = Fragment(position: nat, size: nat, first: bool)

  predicate Within(fs: seq<Fragment>, length: nat) {
    forall i :: 0 <= i < |fs| ==> fs[i].position + fs[i].size <= length
  }

  lemma WithinFrom(fs: seq<Fragment>, length: nat, k: nat)
    requires Within(fs, length) && k <= |fs|
    ensures Within(fs[k..], length)
  {
  }

  // The parts of a frame of that length from a position on.
  function Fragments(length: nat, from_: nat): (fs: seq<Fragment>)
    requires from_ <= length
    ensures Within(fs, length)
    decreases length - from_
  {
    if from_ == length then [] else
      var size := if length - from_ > FRAGMENT_SIZE then FRAGMENT_SIZE else length - from_;
      [Fragment(from_, size, from_ == 0)] + Fragments(length, from_ + size)
  }

  // The fragments cover everything from from_ to length, without gap or overlap.
  ghost predicate Tiles(fs: seq<Fragment>, from_: nat, length: nat) {
    && (fs == [] <==> from_ == length)
    && (fs != [] ==> fs[0].position == from_ && fs[|fs| - 1].position + fs[|fs| - 1].size == length)
    && (forall i :: 0 < i < |fs| ==> fs[i].position == fs[i - 1].position + fs[i - 1].size)
    && (forall i :: 0 <= i < |fs| ==> 0 < fs[i].size <= FRAGMENT_SIZE && fs[i].position >= from_)
    && (forall i :: 0 <= i < |fs| ==> (fs[i].first <==> i == 0 && from_ == 0))
  }

  lemma {:induction false} FragmentsTile(length: nat, from_: nat)
    requires from_ <= length
    ensures Tiles(Fragments(length, from_), from_, length)
    decreases length - from_
  {
    if from_ < length {
      var size := if length - from_ > FRAGMENT_SIZE then FRAGMENT_SIZE else length - from_;
      FragmentsTile(length, from_ + size);
      TileOneMore(from_, size, Fragments(length, from_ + size), length);
    }
  }

  lemma TileOneMore(from_: nat, size: nat, rest: seq<Fragment>, length: nat)
    requires 0 < size <= FRAGMENT_SIZE && from_ + size <= length && Tiles(rest, from_ + size, length)
    ensures Tiles([Fragment(from_, size, from_ == 0)] + rest, from_, length)
  {
  }

  // All fragments but the last hold 1099 octets, and there are no more of them than it
  // takes.
  lemma {:induction false} FragmentsFull(length: nat, from_: nat)
    requires from_ <= length
    ensures var fs := Fragments(length, from_);
      (forall i :: 0 <= i < |fs| - 1 ==> fs[i].size == 1099) && 1099 * |fs| < length - from_ + 1099
    decreases length - from_
  {
    if from_ < length {
      var size := if length - from_ > FRAGMENT_SIZE then FRAGMENT_SIZE else length - from_;
      FragmentsFull(length, from_ + size);
      hide Within;
    }
  }

  function Part(frame: seq<byte>, f: Fragment): seq<byte>
    requires f.position + f.size <= |frame|
  {
    frame[f.position..f.position + f.size]
  }

  // writeFragment: S bit on the first fragment.
  function WriteFragment(frame: seq<byte>, f: Fragment): (payload: seq<byte>)
    requires f.position + f.size <= |frame|
    ensures |payload| == f.size + 1
  {
    [if f.first then 0x10 else 0x00] + Part(frame, f)
  }

  // The descriptor of a fragment tells its parser where a frame begins, and the rest
  // is the part of the frame.
  lemma FragmentParses(frame: seq<byte>, f: Fragment)
    requires f.position + f.size <= |frame| && f.size > 0
    ensures var p := Parse(WriteFragment(frame, f));
      p.Parsed? && p.descriptor.start == f.first && p.data == Part(frame, f)
  {
    var d := Descriptor(false, f.first, 0, None);
    ParseRoundTrip(d, Part(frame, f));
    assert Serialize(d) + Part(frame, f) == WriteFragment(frame, f);
  }

  class RtpVP8Fragmenter {
    const totalData: seq<byte>
    var fragmentQueue: seq<Fragment>

    // calculatePackets.
    constructor (data: seq<byte>)
      ensures totalData == data && fragmentQueue == Fragments(|data|, 0)
    {
      totalData := data;
      var remaining: nat, currentPos: nat, queue := |data|, 0, [];
      while remaining > 0
        invariant remaining + currentPos == |data|
        invariant queue + Fragments(|data|, currentPos) == Fragments(|data|, 0)
      {
        var size := if remaining > FRAGMENT_SIZE then FRAGMENT_SIZE else remaining;
        var fragment := Fragment(currentPos, size, currentPos == 0);
        assert queue + Fragments(|data|, currentPos) == queue + [fragment] + Fragments(|data|, currentPos + size);
        currentPos := currentPos + size;
        remaining := remaining - size;
        queue := queue + [fragment];
      }
      fragmentQueue := queue;
      assert queue + [] == queue;
    }

    method GetPacket() returns (payload: seq<byte>, last: bool)
      requires Within(fragmentQueue, |totalData|)
      modifies this`fragmentQueue
      ensures old(fragmentQueue) == [] ==> payload == [] && !last && fragmentQueue == []
      ensures old(fragmentQueue) != [] ==>
        payload == WriteFragment(totalData, old(fragmentQueue)[0]) && fragmentQueue == old(fragmentQueue)[1..] && last == (fragmentQueue == [])
    {
      payload, last := [], false;
      if |fragmentQueue| > 0 {
        payload := WriteFragment(totalData, fragmentQueue[0]);
        fragmentQueue := fragmentQueue[1..];
        last := |fragmentQueue| == 0;
      }
    }
  }

  // The 16 bits of a counter that go into the header, and the 32 bits that are kept.

  function HeaderNumber(n: int): u16 { n % WRAP }

  function Counter(n: int): u32 { n % TIMESTAMP_WRAP }

  lemma CounterStep(n: int)
    ensures HeaderNumber(Counter(n)) == HeaderNumber(n) && Counter(Counter(n) + 1) == Counter(n + 1)
    ensures 0 <= n < TIMESTAMP_WRAP ==> Counter(n) == n
  {
    LowBits(n);
  }

  lemma LowBits(n: int)
    ensures n % TIMESTAMP_WRAP % WRAP == n % WRAP
  {
    var q, r := n / TIMESTAMP_WRAP, n % TIMESTAMP_WRAP;
    assert n == (q * WRAP) * WRAP + r;
  }

  // The packets that carry the given fragments of a frame, numbered from n on; the
  // marker is set on the last one.
  function PacketsFrom(frame: seq<byte>, fs: seq<Fragment>, n: int, timestamp: u32): (ps: seq<RtpPacket>)
    requires Within(fs, |frame|)
    ensures |ps| == |fs|
  {
    if fs == [] then [] else
      [RtpPacket(HeaderNumber(n), timestamp, |fs| == 1, WriteFragment(frame, fs[0]))] + PacketsFrom(frame, fs[1..], n + 1, timestamp)
  }

  function Packetize(frame: seq<byte>, seqnum: int, timestamp: u32): (ps: seq<RtpPacket>)
    ensures |ps| == |Fragments(|frame|, 0)|
  {
    PacketsFrom(frame, Fragments(|frame|, 0), seqnum, timestamp)
  }

  lemma {:induction false} PacketAt(frame: seq<byte>, fs: seq<Fragment>, n: int, timestamp: u32, k: nat)
    requires Within(fs, |frame|) && k < |fs|
    ensures PacketsFrom(frame, fs, n, timestamp)[k] == RtpPacket(HeaderNumber(n + k), timestamp, k == |fs| - 1, WriteFragment(frame, fs[k]))
    decreases k
  {
    hide WriteFragment, HeaderNumber;
    if k > 0 {
      PacketAt(frame, fs[1..], n + 1, timestamp, k - 1);
    }
  }

  class OutputProcessor {
    // An unsigned 32-bit counter of which 16 bits go into the header.
    var seqnum: u32
    // What the RTP receiver has been given.
    var sent: seq<RtpPacket>

    constructor ()
      ensures seqnum == 0 && sent == []
    {
      seqnum, sent := 0, [];
    }

    // One turn of the loop of packageVideo.
    method SendFragment(frag: RtpVP8Fragmenter, timestamp: u32) returns (last: bool)
      requires frag.fragmentQueue != []
      requires Within(frag.fragmentQueue, |frag.totalData|)
      modifies this, frag`fragmentQueue
      ensures frag.fragmentQueue == old(frag.fragmentQueue)[1..] && last == (frag.fragmentQueue == [])
      ensures seqnum == Counter(old(seqnum) + 1)
      ensures sent == old(sent) + [RtpPacket(HeaderNumber(old(seqnum)), timestamp, last, WriteFragment(frag.totalData, old(frag.fragmentQueue)[0]))]
    {
      hide WriteFragment, HeaderNumber, Counter;
      var payload;
      payload, last := frag.GetPacket();
      sent := sent + [RtpPacket(HeaderNumber(seqnum), timestamp, last, payload)];
      seqnum := Counter(seqnum + 1);
    }

    method PackageVideo(inBuff: seq<byte>, timestamp: u32) returns (code: int)
      modifies this
      ensures code == if inBuff == [] then -1 else 0
      ensures sent == old(sent) + Packetize(inBuff, old(seqnum), timestamp)
      ensures seqnum == Counter(old(seqnum) + |Packetize(inBuff, old(seqnum), timestamp)|)
    {
      if |inBuff| <= 0 {
        return -1;
      }
      CounterStep(seqnum);
      hide Fragments, WriteFragment, HeaderNumber, Counter, Within;
      var frag := new RtpVP8Fragmenter(inBuff);
      ghost var all, n := sent + Packetize(inBuff, seqnum, timestamp), seqnum as int;
      ghost var count := n + |frag.fragmentQueue|;
      assert frag.fragmentQueue != [] by { FragmentsTile(|inBuff|, 0); }
      var lastFrame := false;
      while !lastFrame
        invariant frag.totalData == inBuff && fresh(frag) && Within(frag.fragmentQueue, |inBuff|)
        invariant sent + PacketsFrom(inBuff, frag.fragmentQueue, n, timestamp) == all
        invariant seqnum == Counter(n) && n + |frag.fragmentQueue| == count
        invariant lastFrame <==> frag.fragmentQueue == []
        decreases |frag.fragmentQueue|
      {
        CounterStep(n);
        ghost var queue, was := frag.fragmentQueue, sent;
        WithinFrom(queue, |inBuff|, 1);
        lastFrame := SendFragment(frag, timestamp);
        assert sent + PacketsFrom(inBuff, queue[1..], n + 1, timestamp) == was + PacketsFrom(inBuff, queue, n, timestamp);
        n := n + 1;
      }
      assert sent + [] == sent;
      code := 0;
    }
  }
}
