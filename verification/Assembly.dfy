// What the recorder makes of any packets at all: it writes exactly the uninterrupted runs
// of packets from a start to a marker.
module Assembly {
  import opened Bytes
  import opened SeqNum
  import opened Vp8Payload
  import opened PacketQueue
  import opened VideoRecorder
  import opened Recording

  predicate Starts(p: RtpPacket)
    requires Readable(p)
  {
    Parse(p.payload).descriptor.start
  }

  function DataOf(p: RtpPacket): seq<byte>
    requires Readable(p)
  {
    Parse(p.payload).data
  }

  // Packets i to n - 1 begin with a start, have no other start, no number missing and no
  // marker before the last one.
  ghost predicate Open(ps: seq<RtpPacket>, i: nat, n: nat)
    requires AllReadable(ps)
  {
    && i < n <= |ps| && Starts(ps[i])
    && (forall k :: i < k < n ==> !Starts(ps[k]) && ps[k].seqNum == ps[k - 1].seqNum + 1)
    && (forall k :: i <= k < n - 1 ==> !ps[k].marker)
  }

  ghost predicate Complete(ps: seq<RtpPacket>, i: nat, n: nat)
    requires AllReadable(ps)
  {
    Open(ps, i, n) && ps[n - 1].marker
  }

  ghost predicate Incomplete(ps: seq<RtpPacket>, i: nat, n: nat)
    requires AllReadable(ps)
  {
    Open(ps, i, n) && !ps[n - 1].marker
  }

  function DataFrom(ps: seq<RtpPacket>, i: nat, n: nat): seq<byte>
    requires AllReadable(ps) && i <= n <= |ps|
  {
    if i == n then [] else DataFrom(ps, i, n - 1) + DataOf(ps[n - 1])
  }

  ghost predicate SomeComplete(ps: seq<RtpPacket>, n: nat)
    requires AllReadable(ps)
  {
    exists i: nat :: Complete(ps, i, n)
  }

  // The data of the run of packets that ends with packet n - 1 and its marker.
  ghost function CompletedAt(ps: seq<RtpPacket>, n: nat): seq<byte>
    requires AllReadable(ps) && SomeComplete(ps, n)
  {
    var i: nat :| Complete(ps, i, n);
    DataFrom(ps, i, n)
  }

  // What the first n packets complete, in order.
  ghost function Assembled(ps: seq<RtpPacket>, n: nat): seq<seq<byte>>
    requires AllReadable(ps) && n <= |ps|
  {
    if n == 0 then []
    else Assembled(ps, n - 1) + (if SomeComplete(ps, n) then [CompletedAt(ps, n)] else [])
  }

  // One packet more: what was incomplete goes on, or a start begins anew.
  lemma OneMorePacket(ps: seq<RtpPacket>, i: nat, n: nat)
    requires AllReadable(ps) && n < |ps|
    ensures Open(ps, i, n + 1) <==>
      if i == n then Starts(ps[n])
      else Incomplete(ps, i, n) && !Starts(ps[n]) && ps[n].seqNum == ps[n - 1].seqNum + 1
  {
    hide Starts, Readable;
  }

  lemma NoLaterStart(ps: seq<RtpPacket>, i: nat, n: nat, k: nat)
    requires AllReadable(ps) && Open(ps, i, n) && i < k < n
    ensures !Starts(ps[k])
  {
  }

  lemma StartOfOpen(ps: seq<RtpPacket>, i: nat, n: nat)
    requires AllReadable(ps) && Open(ps, i, n)
    ensures i < n <= |ps| && Starts(ps[i])
  {
  }

  lemma OnlyOneOpen(ps: seq<RtpPacket>, i: nat, j: nat, n: nat)
    requires AllReadable(ps) && Open(ps, i, n) && Open(ps, j, n)
    ensures i == j
  {
    hide Open, Starts, Readable;
    StartOfOpen(ps, i, n);
    StartOfOpen(ps, j, n);
    if i < j {
      NoLaterStart(ps, i, n, j);
    } else if j < i {
      NoLaterStart(ps, j, n, i);
    }
  }

  ghost predicate Holds(r: Recorder, ps: seq<RtpPacket>, n: nat)
    requires AllReadable(ps) && n <= |ps|
  {
    && (n > 0 ==> r.last == ps[n - 1].seqNum)
    && (r.search.LookingForStart? ==> r.pending == [] && forall i: nat :: !Incomplete(ps, i, n))
    && (r.search.LookingForEnd? ==> exists i: nat :: Incomplete(ps, i, n) && r.pending == DataFrom(ps, i, n))
  }

  // Packets i to m - 1 are the only open ones, or none are if i is -1.
  ghost predicate OpenFrom(ps: seq<RtpPacket>, i: int, m: nat)
    requires AllReadable(ps)
  {
    i >= -1 && forall j: nat :: Open(ps, j, m) <==> j == i
  }

  // Where the frame begins that is open behind the next packet.
  lemma OpenBehind(r: Recorder, ps: seq<RtpPacket>, n: nat, m: nat) returns (i: int)
    requires AllReadable(ps) && n < |ps| && m == n + 1 && Holds(r, ps, n)
    ensures OpenFrom(ps, i, m) && i < m
    ensures i == -1 <==> !Starts(ps[n]) && CheckGap(r, ps[n].seqNum).search.LookingForStart?
    ensures i >= 0 ==> DataFrom(ps, i, m) == if Starts(ps[n]) then DataOf(ps[n]) else r.pending + DataOf(ps[n])
  {
    hide Starts, DataOf, Readable;
    var p := ps[n];
    if Starts(p) {
      i := n;
      assert DataFrom(ps, n, n) == [];
    } else if CheckGap(r, p.seqNum).search.LookingForEnd? {
      var j: nat :| Incomplete(ps, j, n) && r.pending == DataFrom(ps, j, n);
      i := j;
      StartOfOpen(ps, j, n);
    } else {
      i := -1;
    }
    hide Open;
    forall j: nat
      ensures Open(ps, j, m) <==> j == i
    {
      OneMorePacket(ps, j, n);
      if Starts(p) || CheckGap(r, p.seqNum).search.LookingForStart? {
        if Open(ps, j, n) && j >= n {
          StartOfOpen(ps, j, n);
        }
      } else if Incomplete(ps, j, n) {
        OnlyOneOpen(ps, i, j, n);
      }
    }
  }

  lemma CompletedIs(ps: seq<RtpPacket>, i: int, m: nat)
    requires AllReadable(ps) && OpenFrom(ps, i, m) && 0 < m <= |ps|
    ensures SomeComplete(ps, m) <==> i >= 0 && ps[m - 1].marker
    ensures SomeComplete(ps, m) ==> i <= m && CompletedAt(ps, m) == DataFrom(ps, i, m)
    ensures forall j: nat :: Incomplete(ps, j, m) <==> j == i && !ps[m - 1].marker
  {
    hide DataFrom, Readable, Starts;
    if i >= 0 {
      StartOfOpen(ps, i, m);
    }
    hide Open;
    assert i >= 0 && ps[m - 1].marker ==> Complete(ps, i, m);
  }

  // One packet, whatever the state: whether a frame is open with it, and its data so far.
  lemma WriteIs(r: Recorder, p: RtpPacket)
    requires Readable(p) && (r.search.LookingForStart? ==> r.pending == [])
    ensures var next, open := WriteVideoData(r, p), Starts(p) || CheckGap(r, p.seqNum).search.LookingForEnd?;
      var data := if Starts(p) then DataOf(p) else r.pending + DataOf(p);
      && next.last == p.seqNum
      && (next.search.LookingForEnd? <==> open && !p.marker)
      && next.pending == (if open && !p.marker then data else [])
      && next.written == r.written + (if open && p.marker then [data] else [])
  {
    hide Parse;
  }

  lemma StepHolds(r: Recorder, ps: seq<RtpPacket>, n: nat, m: nat)
    requires AllReadable(ps) && n < |ps| && m == n + 1 && Holds(r, ps, n)
    ensures Holds(WriteVideoData(r, ps[n]), ps, m)
    ensures WriteVideoData(r, ps[n]).written == r.written + (if SomeComplete(ps, m) then [CompletedAt(ps, m)] else [])
  {
    var i := OpenBehind(r, ps, n, m);
    CompletedIs(ps, i, m);
    WriteIs(r, ps[n]);
    hide Open, DataFrom, OpenFrom, Incomplete, SomeComplete, CompletedAt, WriteVideoData, CheckGap, Starts, DataOf, Readable;
    assert i >= 0 && !ps[n].marker ==> Incomplete(ps, i, m);
  }

  // The recorder after the first n packets, begun without a frame.
  ghost function After(ps: seq<RtpPacket>, last: u16, n: nat): Recorder
    requires AllReadable(ps) && n <= |ps|
  {
    if n == 0 then Recorder(LookingForStart, [], last, []) else WriteVideoData(After(ps, last, n - 1), ps[n - 1])
  }

  lemma {:induction false} AfterHolds(ps: seq<RtpPacket>, last: u16, n: nat)
    requires AllReadable(ps) && n <= |ps|
    ensures Holds(After(ps, last, n), ps, n) && After(ps, last, n).written == Assembled(ps, n)
  {
    if n == 0 {
      NothingOpen(ps);
    } else {
      AfterHolds(ps, last, n - 1);
      hide Holds, SomeComplete, CompletedAt, WriteVideoData, Readable;
      StepHolds(After(ps, last, n - 1), ps, n - 1, n);
    }
  }

  lemma NothingOpen(ps: seq<RtpPacket>)
    requires AllReadable(ps)
    ensures forall i: nat :: !Incomplete(ps, i, 0)
  {
  }

  lemma {:induction false} AfterIsFed(ps: seq<RtpPacket>, last: u16, n: nat)
    requires AllReadable(ps) && n <= |ps|
    ensures AllReadable(ps[..n]) && After(ps, last, n) == FeedList(Recorder(LookingForStart, [], last, []), ps[..n])
  {
    hide WriteVideoData, Readable;
    if n > 0 {
      AfterIsFed(ps, last, n - 1);
      assert ps[..n][..n - 1] == ps[..n - 1];
    }
  }

  // For every list of readable packets, in whatever order and from whatever frames: what
  // is written is exactly the data of the runs of packets that begin with a start, end
  // with a marker, and have no other start or marker and no missing number in between.
  lemma WritesExactlyRuns(ps: seq<RtpPacket>, last: u16)
    requires AllReadable(ps)
    ensures FeedList(Recorder(LookingForStart, [], last, []), ps).written == Assembled(ps, |ps|)
  {
    AfterHolds(ps, last, |ps|);
    AfterIsFed(ps, last, |ps|);
    assert ps[..|ps|] == ps;
    hide Assembled, After, FeedList, Holds;
  }
}
