// The decoder of ForwardErrorCorrection as steps on values: what each method does
// to the list of FEC packets and to the list of recovered packets.
module FecDecoder {
  import opened Options
  import opened Bytes
  import opened SeqNum
  import opened ParityCode
  import opened FecEncoder
  import opened FecGenerator

  type SsrcBytes = s: seq<byte> | |s| == 4 witness [0, 0, 0, 0]

  // Packets that the decoder accepts have an RTP header.
  type MediaPacket = p: Packet | MediaSized(p) witness seq(RTP_HEADER_SIZE, _ => 0)

  // An FEC packet has no RTP header of its own, and any length.
  datatype ReceivedPacket =
    | ReceivedMedia(seqNum: u16, media: MediaPacket)
    | ReceivedFec(seqNum: u16, ssrc: SsrcBytes, fec: Packet)

  // A media packet that an FEC packet protects; pkt is its data once known.
  datatype ProtectedPacket = ProtectedPacket(seqNum: u16, pkt: Option<MediaPacket>)

  datatype FecPacket = FecPacket(seqNum: u16, ssrc: SsrcBytes, pkt: Packet, protectedList: seq<ProtectedPacket>)

  datatype RecoveredPacket = RecoveredPacket(seqNum: u16, wasRecovered: bool, returned: bool, pkt: MediaPacket)

  datatype State = State(fecs: seq<FecPacket>, recovered: seq<RecoveredPacket>)

  function Keys(list: seq<RecoveredPacket>): (s: seq<u16>)
    ensures |s| == |list| && forall i :: 0 <= i < |s| ==> s[i] == list[i].seqNum
  {
    seq(|list|, i requires 0 <= i < |list| => list[i].seqNum)
  }

  function FecKeys(list: seq<FecPacket>): (s: seq<u16>)
    ensures |s| == |list| && forall i :: 0 <= i < |s| ==> s[i] == list[i].seqNum
  {
    seq(|list|, i requires 0 <= i < |list| => list[i].seqNum)
  }

  function ProtectedKeys(list: seq<ProtectedPacket>): (s: seq<u16>)
    ensures |s| == |list| && forall i :: 0 <= i < |s| ==> s[i] == list[i].seqNum
  {
    seq(|list|, i requires 0 <= i < |list| => list[i].seqNum)
  }

  // push_back and sort by SortablePacket::LessThan: a stable sort puts the new
  // element behind all that are not newer.
  function InsertAt(keys: seq<u16>, x: u16): (i: nat)
    ensures i <= |keys|
    ensures forall j :: 0 <= j < i ==> !IsNewer(keys[j], x)
    ensures i < |keys| ==> IsNewer(keys[i], x)
  {
    if keys == [] || IsNewer(keys[0], x) then 0 else 1 + InsertAt(keys[1..], x)
  }

  function PushSorted(list: seq<RecoveredPacket>, r: RecoveredPacket): (s: seq<RecoveredPacket>)
    ensures |s| == |list| + 1
  {
    var i := InsertAt(Keys(list), r.seqNum);
    list[..i] + [r] + list[i..]
  }

  function PushFecSorted(list: seq<FecPacket>, f: FecPacket): (s: seq<FecPacket>)
    ensures |s| == |list| + 1
  {
    var i := InsertAt(FecKeys(list), f.seqNum);
    list[..i] + [f] + list[i..]
  }

  // DiscardOldPackets keeps the newest packets.
  function Newest(list: seq<RecoveredPacket>): seq<RecoveredPacket> {
    if |list| > MAX_MEDIA_PACKETS then list[|list| - MAX_MEDIA_PACKETS..] else list
  }

  // UpdateCoveringFECPackets: every FEC packet that protects the packet learns its data.

  function Cover(p: ProtectedPacket, r: RecoveredPacket): ProtectedPacket {
    if p.seqNum == r.seqNum then p.(pkt := Some(r.pkt)) else p
  }

  function CoverList(list: seq<ProtectedPacket>, r: RecoveredPacket): (s: seq<ProtectedPacket>)
    ensures |s| == |list| && forall i :: 0 <= i < |s| ==> s[i] == Cover(list[i], r)
  {
    seq(|list|, i requires 0 <= i < |list| => Cover(list[i], r))
  }

  function CoverFec(f: FecPacket, r: RecoveredPacket): FecPacket {
    f.(protectedList := CoverList(f.protectedList, r))
  }

  function CoverAll(fecs: seq<FecPacket>, r: RecoveredPacket): (s: seq<FecPacket>)
    ensures |s| == |fecs| && forall i :: 0 <= i < |s| ==> s[i] == CoverFec(fecs[i], r)
  {
    seq(|fecs|, i requires 0 <= i < |fecs| => CoverFec(fecs[i], r))
  }

  function InsertMedia(st: State, seqNum: u16, media: MediaPacket): State {
    if seqNum in Keys(st.recovered) then st
    else
      var r := RecoveredPacket(seqNum, false, true, media);
      State(CoverAll(st.fecs, r), PushSorted(st.recovered, r))
  }

  // AssignRecoveredPackets: the data of a protected packet that is already there.
  function Lookup(list: seq<RecoveredPacket>, s: u16): (d: Option<MediaPacket>)
    ensures d.Some? <==> s in Keys(list)
    ensures d.Some? ==> exists i :: 0 <= i < |list| && list[i].seqNum == s && list[i].pkt == d.value
  {
    if list == [] then None
    else if list[0].seqNum == s then Some(list[0].pkt)
    else
      assert Keys(list) == [list[0].seqNum] + Keys(list[1..]);
      Lookup(list[1..], s)
  }

  function NewFec(seqNum: u16, ssrc: SsrcBytes, fec: Packet, list: seq<RecoveredPacket>): FecPacket {
    var covered := CoveredSeqs(fec);
    FecPacket(seqNum, ssrc, fec, seq(|covered|, i requires 0 <= i < |covered| => ProtectedPacket(covered[i], Lookup(list, covered[i]))))
  }

  // InsertFECPacket: duplicates and all-zero masks are dropped, and so is the oldest
  // FEC packet when there are too many.
  function InsertFec(st: State, seqNum: u16, ssrc: SsrcBytes, fec: Packet): State {
    if seqNum in FecKeys(st.fecs) || CoveredSeqs(fec) == [] then st
    else
      var fecs := PushFecSorted(st.fecs, NewFec(seqNum, ssrc, fec, st.recovered));
      st.(fecs := if |fecs| > MAX_MEDIA_PACKETS then fecs[1..] else fecs)
  }

  function Abs(x: int): nat { if x < 0 then -x else x }

  // One turn of InsertPackets. The age test of the oldest FEC packet uses the
  // plain difference of the 16-bit numbers.
  function DropStaleFec(st: State, seqNum: u16): State {
    if st.fecs != [] && Abs(seqNum - st.fecs[0].seqNum) > 0x3fff then st.(fecs := st.fecs[1..]) else st
  }

  function InsertOne(st: State, rx: ReceivedPacket): State {
    var s := DropStaleFec(st, rx.seqNum);
    match rx
    case ReceivedMedia(n, media) => InsertMedia(s, n, media)
    case ReceivedFec(n, ssrc, fec) => InsertFec(s, n, ssrc, fec)
  }

  function InsertAll(st: State, batch: seq<ReceivedPacket>): State {
    if batch == [] then st else InsertOne(InsertAll(st, batch[..|batch| - 1]), batch[|batch| - 1])
  }

  function InsertPackets(st: State, batch: seq<ReceivedPacket>): State {
    var s := InsertAll(st, batch);
    s.(recovered := Newest(s.recovered))
  }

  // The protected packets whose data is missing, and the data of the others.

  function Missing(list: seq<ProtectedPacket>): (s: seq<u16>)
    ensures |s| <= |list|
  {
    if list == [] then [] else
      var rest := Missing(list[..|list| - 1]);
      var p := list[|list| - 1];
      if p.pkt.None? then rest + [p.seqNum] else rest
  }

  function Known(list: seq<ProtectedPacket>): (s: seq<Packet>)
    ensures AllMediaSized(s)
  {
    if list == [] then [] else
      var rest := Known(list[..|list| - 1]);
      var p := list[|list| - 1];
      if p.pkt.Some? then rest + [p.pkt.value] else rest
  }

  // RecoverPacket, for an FEC packet with one missing packet.
  function Recover(f: FecPacket): RecoveredPacket
    requires |Missing(f.protectedList)| == 1
  {
    var s := Missing(f.protectedList)[0];
    RecoveredPacket(s, true, false, Recovered(f.pkt, f.ssrc, s, Known(f.protectedList)))
  }

  function Without(fecs: seq<FecPacket>, i: nat): (s: seq<FecPacket>)
    requires i < |fecs|
    ensures |s| == |fecs| - 1
  {
    fecs[..i] + fecs[i + 1..]
  }

  function RecoverAt(st: State, i: nat): (s: State)
    requires i < |st.fecs| && |Missing(st.fecs[i].protectedList)| == 1
    ensures |s.fecs| == |st.fecs| - 1
  {
    var r := Recover(st.fecs[i]);
    State(Without(CoverAll(st.fecs, r), i), Newest(PushSorted(st.recovered, r)))
  }

  // AttemptRecover from FEC packet i on. It starts again from the first FEC packet
  // after each recovery.
  function Attempt(st: State, i: nat): State
    requires i <= |st.fecs|
    decreases |st.fecs|, |st.fecs| - i
  {
    if i == |st.fecs| then st
    else
      var missing := |Missing(st.fecs[i].protectedList)|;
      if missing == 1 then Attempt(RecoverAt(st, i), 0)
      else if missing == 0 then Attempt(st.(fecs := Without(st.fecs, i)), i)
      else Attempt(st, i + 1)
  }

  // The packets that AttemptRecover recovers, in the order it recovers them.
  ghost function News(st: State, i: nat): seq<RecoveredPacket>
    requires i <= |st.fecs|
    decreases |st.fecs|, |st.fecs| - i
  {
    if i == |st.fecs| then []
    else
      var missing := |Missing(st.fecs[i].protectedList)|;
      if missing == 1 then [Recover(st.fecs[i])] + News(RecoverAt(st, i), 0)
      else if missing == 0 then News(st.(fecs := Without(st.fecs, i)), i)
      else News(st, i + 1)
  }

  // A full list far from the first new packet is useless, and both lists are reset.
  function ResetIfFar(st: State, batch: seq<ReceivedPacket>): State
    requires batch != []
  {
    if |st.recovered| == MAX_MEDIA_PACKETS
       && Abs(batch[0].seqNum - st.recovered[|st.recovered| - 1].seqNum) > MAX_MEDIA_PACKETS
    then State([], []) else st
  }

  function Decode(st: State, batch: seq<ReceivedPacket>): State
    requires batch != []
  {
    Attempt(InsertPackets(ResetIfFar(st, batch), batch), 0)
  }
}
