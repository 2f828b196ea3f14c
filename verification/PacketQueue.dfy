// RtpPacketQueue: a reordering queue with the newest packet in front. It refines a
// sorted set of unwrapped sequence numbers.
module PacketQueue {
  import opened Options
  import opened Bytes
  import opened SeqNum
  import opened Integers

  const TIMESTAMP_WRAP: int := 0x1_0000_0000

  // What the queue reads of an RTP packet, and the rest of it.
  datatype RtpPacket = RtpPacket(seqNum: u16, timestamp: u32, marker: bool, payload: seq<byte>)

  // ---- The queue as the class holds it ------------------------------------------------

  // getDepthInSeconds: the 32-bit difference of the outermost time stamps.
  function Depth(queue: seq<RtpPacket>, timebase: nat): (d: real)
    ensures d >= 0.0 && (|queue| <= 1 ==> d == 0.0)
  {
    if timebase > 0 && |queue| > 1
    then ((queue[0].timestamp - queue[|queue| - 1].timestamp) % TIMESTAMP_WRAP) as real / timebase as real
    else 0.0
  }

  // The newest packet is t ticks of the 32-bit clock later than the oldest.
  ghost predicate Spans(queue: seq<RtpPacket>, t: u32) {
    queue != [] && queue[0].timestamp == (queue[|queue| - 1].timestamp + t) % TIMESTAMP_WRAP
  }

  // The queue spans more than that many seconds of a known time base.
  ghost predicate SpansMoreThan(queue: seq<RtpPacket>, timebase: nat, limit: real) {
    timebase > 0 && |queue| > 1 && exists t: u32 :: Spans(queue, t) && t as real > limit * timebase as real
  }

  // A depth is compared by the ticks from the oldest packet forward to the newest.
  lemma DepthIsSpan(queue: seq<RtpPacket>, timebase: nat, limit: real)
    requires limit >= 0.0
    ensures Depth(queue, timebase) > limit <==> SpansMoreThan(queue, timebase, limit)
  {
    if timebase > 0 && |queue| > 1 {
      OneSpan(queue, limit * timebase as real);
      Quotient(((queue[0].timestamp - queue[|queue| - 1].timestamp) % TIMESTAMP_WRAP) as real, timebase as real, limit);
    }
    hide Spans;
  }

  lemma OneSpan(queue: seq<RtpPacket>, x: real)
    requires queue != []
    ensures (exists t: u32 :: Spans(queue, t) && t as real > x) <==>
            ((queue[0].timestamp - queue[|queue| - 1].timestamp) % TIMESTAMP_WRAP) as real > x
  {
    SpanIs(queue);
    var ticks: u32 := (queue[0].timestamp - queue[|queue| - 1].timestamp) % TIMESTAMP_WRAP;
    hide Spans;
    assert Spans(queue, ticks);
  }

  lemma SpanIs(queue: seq<RtpPacket>)
    requires queue != []
    ensures forall t: u32 :: Spans(queue, t) <==> t == (queue[0].timestamp - queue[|queue| - 1].timestamp) % TIMESTAMP_WRAP
  {
    forall t: u32
      ensures Spans(queue, t) <==> t == (queue[0].timestamp - queue[|queue| - 1].timestamp) % TIMESTAMP_WRAP
    {
      Forward(queue[|queue| - 1].timestamp, queue[0].timestamp, t);
    }
  }

  lemma Forward(a: u32, b: u32, t: u32)
    ensures b == (a + t) % TIMESTAMP_WRAP <==> t == (b - a) % TIMESTAMP_WRAP
  {
    assert a + t < TIMESTAMP_WRAP ==> (a + t) % TIMESTAMP_WRAP == a + t;
    assert a + t >= TIMESTAMP_WRAP ==> (a + t) % TIMESTAMP_WRAP == a + t - TIMESTAMP_WRAP;
  }

  lemma Quotient(x: real, y: real, limit: real)
    requires y > 0.0
    ensures x / y > limit <==> x > limit * y
  {
    assert x == (x / y) * y;
  }

  // lastSequenceNumberGiven is -1 until a packet has been given out.
  predicate TooLate(lastGiven: int, s: u16)
    requires -1 <= lastGiven < WRAP
  {
    lastGiven >= 0 && (RtpSequenceLessThan(s, lastGiven) || s == lastGiven)
  }

  // The scan from the newest packet on: a duplicate is dropped, otherwise the packet
  // goes in front of the first older one, or to the end.
  function InsertByScan(queue: seq<RtpPacket>, p: RtpPacket): seq<RtpPacket> {
    if queue == [] then [p]
    else if queue[0].seqNum == p.seqNum then queue
    else if RtpSequenceLessThan(queue[0].seqNum, p.seqNum) then [p] + queue
    else [queue[0]] + InsertByScan(queue[1..], p)
  }

  // The scan meets the number of the packet.
  predicate MeetsDuplicate(queue: seq<RtpPacket>, p: RtpPacket) {
    queue != [] &&
    (queue[0].seqNum == p.seqNum || (!RtpSequenceLessThan(queue[0].seqNum, p.seqNum) && MeetsDuplicate(queue[1..], p)))
  }

  // How many packets are left when the oldest are dropped while the queue is too deep.
  function TrimmedLength(queue: seq<RtpPacket>, timebase: nat, maxDepth: real): (n: nat)
    requires maxDepth >= 0.0
    ensures n <= |queue| && Depth(queue[..n], timebase) <= maxDepth
  {
    if Depth(queue, timebase) > maxDepth then TrimmedLength(queue[..|queue| - 1], timebase, maxDepth)
    else assert queue[..|queue|] == queue; |queue|
  }

  function Trim(queue: seq<RtpPacket>, timebase: nat, maxDepth: real): seq<RtpPacket>
    requires maxDepth >= 0.0
  {
    queue[..TrimmedLength(queue, timebase, maxDepth)]
  }

  // What is left is the longest beginning that does not span more than the maximum.
  lemma {:induction false} TrimmedIsLongest(queue: seq<RtpPacket>, timebase: nat, maxDepth: real)
    requires maxDepth >= 0.0
    ensures LongestWithin(queue, TrimmedLength(queue, timebase, maxDepth), timebase, maxDepth)
  {
    DepthIsSpan(queue, timebase, maxDepth);
    assert queue[..|queue|] == queue;
    if Depth(queue, timebase) > maxDepth {
      var shorter := queue[..|queue| - 1];
      TrimmedIsLongest(shorter, timebase, maxDepth);
      var n := TrimmedLength(shorter, timebase, maxDepth);
      hide Depth, TrimmedLength, SpansMoreThan;
      forall k | 0 <= k <= |queue|
        ensures SpansMoreThan(queue[..k], timebase, maxDepth) <== n < k
        ensures k == n ==> !SpansMoreThan(queue[..k], timebase, maxDepth)
      {
        assert k < |queue| ==> shorter[..k] == queue[..k];
      }
    }
  }

  // The first n packets do not span more than the maximum; every longer beginning does.
  ghost predicate LongestWithin(queue: seq<RtpPacket>, n: nat, timebase: nat, maxDepth: real) {
    && n <= |queue| && !SpansMoreThan(queue[..n], timebase, maxDepth)
    && forall k :: n < k <= |queue| ==> SpansMoreThan(queue[..k], timebase, maxDepth)
  }

  function Push(queue: seq<RtpPacket>, lastGiven: int, timebase: nat, maxDepth: real, p: RtpPacket): seq<RtpPacket>
    requires -1 <= lastGiven < WRAP && maxDepth >= 0.0
  {
    if TooLate(lastGiven, p.seqNum) then queue else Trim(InsertByScan(queue, p), timebase, maxDepth)
  }

  // What one more step of the scan finds out.
  lemma ScanStep(queue: seq<RtpPacket>, p: RtpPacket, i: nat)
    requires i < |queue|
    ensures var scanned := queue[..i] + InsertByScan(queue[i..], p);
      if queue[i].seqNum == p.seqNum then scanned == queue
      else if RtpSequenceLessThan(queue[i].seqNum, p.seqNum) then scanned == queue[..i] + [p] + queue[i..]
      else scanned == queue[..i + 1] + InsertByScan(queue[i + 1..], p)
  {
    hide RtpSequenceLessThan;
    assert queue == queue[..i] + queue[i..] && queue[i..][1..] == queue[i + 1..];
    assert queue[..i] + ([p] + queue[i..]) == queue[..i] + [p] + queue[i..];
    assert queue[..i] + ([queue[i]] + InsertByScan(queue[i + 1..], p)) == queue[..i + 1] + InsertByScan(queue[i + 1..], p);
  }

  lemma ScanEnd(queue: seq<RtpPacket>, p: RtpPacket)
    ensures queue[..|queue|] + InsertByScan(queue[|queue|..], p) == queue + [p]
  {
  }

  class RtpPacketQueue {
    var queue: seq<RtpPacket>
    var lastGiven: int
    var timebase: nat
    var depth: real
    var maxDepth: real

    ghost predicate Valid()
      reads this
    {
      -1 <= lastGiven < WRAP && maxDepth >= 0.0
    }

    // A configuration whose depth is not below its maximum is reset to the defaults.
    constructor (depthInSeconds: real, maxDepthInSeconds: real)
      requires depthInSeconds < maxDepthInSeconds ==> maxDepthInSeconds >= 0.0
      ensures Valid() && queue == [] && lastGiven == -1 && timebase == 0 && depth < maxDepth
      ensures depthInSeconds < maxDepthInSeconds ==> depth == depthInSeconds && maxDepth == maxDepthInSeconds
      ensures depthInSeconds >= maxDepthInSeconds ==> depth == 3.0 && maxDepth == 5.0
    {
      queue, lastGiven, timebase := [], -1, 0;
      depth, maxDepth := depthInSeconds, maxDepthInSeconds;
      if depthInSeconds >= maxDepthInSeconds {
        depth, maxDepth := 3.0, 5.0;
      }
    }

    // The loop that looks for the place of the packet.
    method Insert(p: RtpPacket)
      modifies this`queue
      ensures queue == InsertByScan(old(queue), p)
    {
      hide RtpSequenceLessThan, InsertByScan;
      ghost var was := queue;
      var i := 0;
      while i < |queue|
        invariant i <= |was| && queue == was
        invariant InsertByScan(was, p) == was[..i] + InsertByScan(was[i..], p)
      {
        ScanStep(was, p, i);
        if queue[i].seqNum == p.seqNum {
          return;
        }
        if RtpSequenceLessThan(queue[i].seqNum, p.seqNum) {
          queue := queue[..i] + [p] + queue[i..];
          return;
        }
        i := i + 1;
      }
      ScanEnd(was, p);
      queue := queue + [p];
    }

    // The loop that drops the oldest packets of a queue that is too deep.
    method DropOldest()
      requires Valid()
      modifies this`queue
      ensures queue == Trim(old(queue), timebase, maxDepth)
      ensures queue <= old(queue) && LongestWithin(old(queue), |queue|, timebase, maxDepth)
    {
      ghost var full := queue;
      TrimmedIsLongest(full, timebase, maxDepth);
      assert full[..|full|] == full;
      while Depth(queue, timebase) > maxDepth
        invariant |queue| <= |full| && queue == full[..|queue|]
        invariant TrimmedLength(queue, timebase, maxDepth) == TrimmedLength(full, timebase, maxDepth)
        decreases |queue|
      {
        queue := queue[..|queue| - 1];
      }
    }

    method PushPacket(p: RtpPacket)
      requires Valid()
      modifies this`queue
      ensures Valid() && queue == Push(old(queue), lastGiven, timebase, maxDepth, p)
      ensures !TooLate(lastGiven, p.seqNum) ==>
        var scanned := InsertByScan(old(queue), p);
        queue <= scanned && LongestWithin(scanned, |queue|, timebase, maxDepth)
    {
      hide RtpSequenceLessThan, InsertByScan, TrimmedLength;
      if TooLate(lastGiven, p.seqNum) {
        return;
      }
      Insert(p);
      DropOldest();
    }

    method PopPacket(ignoreDepth: bool) returns (packet: Option<RtpPacket>)
      requires Valid()
      modifies this`queue, this`lastGiven
      ensures Valid()
      ensures packet.Some? <==> |old(queue)| > 0 && (ignoreDepth || Depth(old(queue), timebase) > depth)
      ensures packet.Some? <==> |old(queue)| > 0 && (ignoreDepth || depth < 0.0 || SpansMoreThan(old(queue), timebase, depth))
      ensures packet.Some? ==> old(queue) == queue + [packet.value] && lastGiven == packet.value.seqNum
      ensures packet.None? ==> queue == old(queue) && lastGiven == old(lastGiven)
    {
      packet := None;
      if depth >= 0.0 {
        DepthIsSpan(queue, timebase, depth);
      }
      hide SpansMoreThan, Depth;
      if |queue| > 0 {
        if ignoreDepth || Depth(queue, timebase) > depth {
          packet := Some(queue[|queue| - 1]);
          queue := queue[..|queue| - 1];
          lastGiven := packet.value.seqNum;
        }
      }
    }

    method SetTimebase(t: nat)
      requires Valid()
      modifies this`timebase
      ensures timebase == t
    {
      timebase := t;
    }

    method HasData() returns (b: bool)
      requires Valid()
      ensures b <==> Depth(queue, timebase) > depth
      ensures b <==> depth < 0.0 || SpansMoreThan(queue, timebase, depth)
    {
      if depth >= 0.0 {
        DepthIsSpan(queue, timebase, depth);
      }
      hide SpansMoreThan, Depth;
      var current := Depth(queue, timebase);
      b := current > depth;
    }
  }

  // A pop that respects the depth succeeds exactly when hasData held, if and only if
  // the queue has a packet or the configured depth is not negative.
  lemma HasDataMeansPop(queue: seq<RtpPacket>, timebase: nat, depth: real)
    ensures ((|queue| > 0 && Depth(queue, timebase) > depth) <==> Depth(queue, timebase) > depth) <==> (|queue| > 0 || depth >= 0.0)
  {
  }

  // ---- The sorted set it refines -------------------------------------------------------

  datatype Item = Item(u: int, packet: RtpPacket)

  // items is strictly descending by unwrapped number; the other fields record where
  // every other packet that was pushed has gone.
  datatype Sorted = Sorted(items: seq<Item>, last: Option<int>, timebase: nat,
                           given: seq<Item>, late: seq<Item>, duplicate: seq<Item>, trimmed: seq<Item>)

  datatype Event = PushEvent(item: Item) | PopEvent(ignoreDepth: bool) | TimebaseEvent(timebase: nat)

  function Packets(items: seq<Item>): (s: seq<RtpPacket>)
    ensures |s| == |items| && forall i :: 0 <= i < |s| ==> s[i] == items[i].packet
  {
    seq(|items|, i requires 0 <= i < |items| => items[i].packet)
  }

  predicate Contains(items: seq<Item>, u: int) { exists i :: 0 <= i < |items| && items[i].u == u }

  function InsertDescending(items: seq<Item>, x: Item): (s: seq<Item>)
    ensures multiset(s) == multiset(items) + multiset{x}
  {
    if items == [] || items[0].u < x.u then [x] + items
    else
      assert items == [items[0]] + items[1..];
      [items[0]] + InsertDescending(items[1..], x)
  }

  function PushItem(s: Sorted, x: Item, maxDepth: real): Sorted
    requires maxDepth >= 0.0
  {
    if s.last.Some? && x.u <= s.last.value then s.(late := s.late + [x])
    else
      var duplicate := Contains(s.items, x.u);
      var items := if duplicate then s.items else InsertDescending(s.items, x);
      var n := TrimmedLength(Packets(items), s.timebase, maxDepth);
      s.(items := items[..n], trimmed := s.trimmed + items[n..], duplicate := if duplicate then s.duplicate + [x] else s.duplicate)
  }

  function PopItem(s: Sorted, ignoreDepth: bool, depth: real): Sorted {
    if |s.items| > 0 && (ignoreDepth || Depth(Packets(s.items), s.timebase) > depth) then
      var oldest := s.items[|s.items| - 1];
      s.(items := s.items[..|s.items| - 1], last := Some(oldest.u), given := s.given + [oldest])
    else s
  }

  function Step(s: Sorted, e: Event, depth: real, maxDepth: real): Sorted
    requires maxDepth >= 0.0
  {
    match e
    case PushEvent(x) => PushItem(s, x, maxDepth)
    case PopEvent(ignoreDepth) => PopItem(s, ignoreDepth, depth)
    case TimebaseEvent(t) => s.(timebase := t)
  }

  function Run(s: Sorted, events: seq<Event>, depth: real, maxDepth: real): Sorted
    requires maxDepth >= 0.0
  {
    if events == [] then s else Step(Run(s, events[..|events| - 1], depth, maxDepth), events[|events| - 1], depth, maxDepth)
  }

  const EMPTY := Sorted([], None, 0, [], [], [], [])

  // Strictly descending, everything newer than what was given, and what was given
  // strictly ascending up to the last number.
  ghost predicate InOrder(s: Sorted) {
    && Descending(s.items) && (s.last.Some? ==> AllAbove(s.items, s.last.value))
    && (s.last.None? ==> s.given == [])
    && (forall i, j :: 0 <= i < j < |s.given| ==> s.given[i].u < s.given[j].u)
    && (forall i :: 0 <= i < |s.given| ==> s.given[i].u <= s.last.value)
  }

  // Everything alive lies in the half window that starts at b.
  ghost predicate InWindow(b: int, s: Sorted) {
    && (forall i :: 0 <= i < |s.items| ==> b <= s.items[i].u < b + HALF && s.items[i].packet.seqNum == s.items[i].u % WRAP)
    && (s.last.Some? ==> b <= s.last.value < b + HALF)
  }

  // lastSequenceNumberGiven of the class, for the set.
  function LastGiven(s: Sorted): int {
    if s.last.Some? then s.last.value % WRAP else -1
  }

  lemma ComparesAlike(b: int, u: int, v: int)
    requires b <= u < b + HALF && b <= v < b + HALF
    ensures RtpSequenceLessThan(u % WRAP, v % WRAP) <==> u < v
    ensures u % WRAP == v % WRAP <==> u == v
  {
    UnwrapOf(b, u);
    UnwrapOf(b, v);
    ComparatorsAgree(b, u % WRAP, v % WRAP);
  }

  lemma ContainsCons(items: seq<Item>, u: int)
    requires items != []
    ensures Contains(items, u) <==> items[0].u == u || Contains(items[1..], u)
  {
    if Contains(items[1..], u) {
      var i :| 0 <= i < |items[1..]| && items[1..][i].u == u;
      assert items[i + 1].u == u;
    }
  }

  lemma PacketsCons(x: Item, items: seq<Item>)
    ensures Packets([x] + items) == [x.packet] + Packets(items)
  {
  }

  lemma {:induction false} ScanInserts(b: int, items: seq<Item>, x: Item)
    requires forall i :: 0 <= i < |items| ==> b <= items[i].u < b + HALF && items[i].packet.seqNum == items[i].u % WRAP
    requires forall i, j :: 0 <= i < j < |items| ==> items[j].u < items[i].u
    requires b <= x.u < b + HALF && x.packet.seqNum == x.u % WRAP
    ensures InsertByScan(Packets(items), x.packet) == Packets(if Contains(items, x.u) then items else InsertDescending(items, x))
    ensures MeetsDuplicate(Packets(items), x.packet) <==> Contains(items, x.u)
  {
    hide RtpSequenceLessThan;
    if items == [] {
      PacketsCons(x, []);
    } else {
      var rest := items[1..];
      ComparesAlike(b, items[0].u, x.u);
      assert items == [items[0]] + rest;
      PacketsCons(items[0], rest);
      assert Packets(items)[1..] == Packets(rest);
      ContainsCons(items, x.u);
      if items[0].u < x.u {
        assert !Contains(rest, x.u);
        PacketsCons(x, items);
      } else if items[0].u > x.u {
        ScanInserts(b, rest, x);
        PacketsCons(items[0], InsertDescending(rest, x));
      }
    }
  }

  // Pushing into the queue is pushing into the sorted set, with the same outcome.
  lemma PushRefines(b: int, s: Sorted, x: Item, maxDepth: real)
    requires InOrder(s) && InWindow(b, s) && maxDepth >= 0.0
    requires b <= x.u < b + HALF && x.packet.seqNum == x.u % WRAP
    ensures Packets(PushItem(s, x, maxDepth).items) == Push(Packets(s.items), LastGiven(s), s.timebase, maxDepth, x.packet)
    ensures TooLate(LastGiven(s), x.packet.seqNum) <==> s.last.Some? && x.u <= s.last.value
    ensures MeetsDuplicate(Packets(s.items), x.packet) <==> Contains(s.items, x.u)
    ensures InsertByScan(Packets(s.items), x.packet) == Packets(if Contains(s.items, x.u) then s.items else InsertDescending(s.items, x))
  {
    hide TrimmedLength, InsertByScan, MeetsDuplicate;
    hide TooLate, Contains, InsertDescending, LastGiven;
    LateAlike(b, s, x);
    ScanInserts(b, s.items, x);
    hide InOrder, InWindow;
    var items := if Contains(s.items, x.u) then s.items else InsertDescending(s.items, x);
    PacketsSplit(items, TrimmedLength(Packets(items), s.timebase, maxDepth), s.trimmed);
  }

  lemma LateAlike(b: int, s: Sorted, x: Item)
    requires InWindow(b, s) && b <= x.u < b + HALF && x.packet.seqNum == x.u % WRAP
    ensures TooLate(LastGiven(s), x.packet.seqNum) <==> s.last.Some? && x.u <= s.last.value
  {
    hide RtpSequenceLessThan;
    if s.last.Some? {
      ComparesAlike(b, x.u, s.last.value);
    }
  }

  ghost predicate Descending(items: seq<Item>) {
    forall i, j :: 0 <= i < j < |items| ==> items[j].u < items[i].u
  }

  ghost predicate AllAbove(items: seq<Item>, u: int) { forall i :: 0 <= i < |items| ==> u < items[i].u }

  ghost predicate AllBelow(items: seq<Item>, u: int) { forall i :: 0 <= i < |items| ==> items[i].u < u }

  lemma {:induction false} InsertKeepsDescending(items: seq<Item>, x: Item)
    requires Descending(items) && !Contains(items, x.u)
    ensures Descending(InsertDescending(items, x))
    ensures forall u :: AllAbove(items, u) && u < x.u ==> AllAbove(InsertDescending(items, x), u)
    ensures forall u :: AllBelow(items, u) && x.u < u ==> AllBelow(InsertDescending(items, x), u)
  {
    if items != [] && !(items[0].u < x.u) {
      var rest := items[1..];
      ContainsCons(items, x.u);
      InsertKeepsDescending(rest, x);
      assert AllBelow(rest, items[0].u);
      forall u | AllAbove(items, u) && u < x.u
        ensures AllAbove(InsertDescending(items, x), u)
      {
        assert AllAbove(rest, u);
      }
      forall u | AllBelow(items, u) && x.u < u
        ensures AllBelow(InsertDescending(items, x), u)
      {
        assert AllBelow(rest, u);
      }
    }
  }

  lemma StepInOrder(s: Sorted, e: Event, depth: real, maxDepth: real)
    requires InOrder(s) && maxDepth >= 0.0
    ensures InOrder(Step(s, e, depth, maxDepth))
  {
    hide TrimmedLength, Depth, Contains;
    match e
    case PushEvent(x) =>
      if !(s.last.Some? && x.u <= s.last.value) && !Contains(s.items, x.u) {
        InsertKeepsDescending(s.items, x);
        assert s.last.Some? ==> AllAbove(s.items, s.last.value);
      }
    case PopEvent(_) =>
    case TimebaseEvent(_) =>
  }

  // Over every run, whatever is pushed in whatever order, the packets given out have
  // strictly increasing numbers, and what is queued is newer than all of them.
  lemma {:induction false} RunInOrder(events: seq<Event>, depth: real, maxDepth: real)
    requires maxDepth >= 0.0
    ensures InOrder(Run(EMPTY, events, depth, maxDepth))
  {
    if events != [] {
      RunInOrder(events[..|events| - 1], depth, maxDepth);
      StepInOrder(Run(EMPTY, events[..|events| - 1], depth, maxDepth), events[|events| - 1], depth, maxDepth);
    }
  }

  function Pushed(events: seq<Event>): seq<Item> {
    if events == [] then [] else
      var rest, e := Pushed(events[..|events| - 1]), events[|events| - 1];
      if e.PushEvent? then rest + [e.item] else rest
  }

  // Every pushed packet is in exactly one place.
  ghost function Everywhere(s: Sorted): multiset<Item> {
    multiset(s.items) + multiset(s.given) + multiset(s.late) + multiset(s.duplicate) + multiset(s.trimmed)
  }

  lemma SplitAccounts<T>(items: seq<T>, n: nat, trimmed: seq<T>)
    requires n <= |items|
    ensures multiset(items[..n]) + multiset(trimmed + items[n..]) == multiset(items) + multiset(trimmed)
  {
    assert items == items[..n] + items[n..];
  }

  lemma SumAccounts<T>(a: multiset<T>, t: multiset<T>, a1: multiset<T>, t1: multiset<T>, i: multiset<T>, d: multiset<T>,
                       d1: multiset<T>, x: multiset<T>, g: multiset<T>, l: multiset<T>)
    requires a1 + t1 == i + t && i + d1 == a + d + x
    ensures a1 + g + l + d1 + t1 == a + g + l + d + t + x
  {
    assert a1 + g + l + d1 + t1 == (a1 + t1) + d1 + (g + l);
    assert a + g + l + d + t + x == (a + d + x) + t + (g + l);
  }

  lemma PushAccounts(s: Sorted, x: Item, maxDepth: real)
    requires maxDepth >= 0.0
    ensures Everywhere(PushItem(s, x, maxDepth)) == Everywhere(s) + multiset{x}
  {
    hide TrimmedLength, Contains, InsertDescending;
    if s.last.Some? && x.u <= s.last.value {
      assert multiset(s.late + [x]) == multiset(s.late) + multiset{x};
    } else {
      var duplicate := Contains(s.items, x.u);
      var items := if duplicate then s.items else InsertDescending(s.items, x);
      var n := TrimmedLength(Packets(items), s.timebase, maxDepth);
      var next := PushItem(s, x, maxDepth);
      SplitAccounts(items, n, s.trimmed);
      assert multiset(items) + multiset(next.duplicate) == multiset(s.items) + multiset(s.duplicate) + multiset{x};
      SumAccounts(multiset(s.items), multiset(s.trimmed), multiset(next.items), multiset(next.trimmed), multiset(items),
                  multiset(s.duplicate), multiset(next.duplicate), multiset{x}, multiset(s.given), multiset(s.late));
    }
  }

  lemma PopAccounts(s: Sorted, ignoreDepth: bool, depth: real)
    ensures Everywhere(PopItem(s, ignoreDepth, depth)) == Everywhere(s)
  {
    assert s.items != [] ==> s.items == s.items[..|s.items| - 1] + [s.items[|s.items| - 1]];
  }

  // Over every run of the set, pushed = queued + given + late + duplicate + trimmed.
  lemma {:induction false} ItemsAccounted(events: seq<Event>, depth: real, maxDepth: real)
    requires maxDepth >= 0.0
    ensures Everywhere(Run(EMPTY, events, depth, maxDepth)) == multiset(Pushed(events))
  {
    if events != [] {
      var s, e := Run(EMPTY, events[..|events| - 1], depth, maxDepth), events[|events| - 1];
      ItemsAccounted(events[..|events| - 1], depth, maxDepth);
      match e
      case PushEvent(x) => PushAccounts(s, x, maxDepth);
      case PopEvent(ignoreDepth) => PopAccounts(s, ignoreDepth, depth);
      case TimebaseEvent(_) =>
    }
  }

  // ---- Whole runs of the queue refine whole runs of the set ----------------------------

  // The fields of the queue, and where every other packet that was pushed has gone.
  datatype QueueState = QueueState(queue: seq<RtpPacket>, lastGiven: int, timebase: nat,
                                   given: seq<RtpPacket>, late: seq<RtpPacket>, duplicate: seq<RtpPacket>, trimmed: seq<RtpPacket>)

  const NO_PACKETS: QueueState := QueueState([], -1, 0, [], [], [], [])

  function PushCall(q: QueueState, p: RtpPacket, maxDepth: real): (r: QueueState)
    requires -1 <= q.lastGiven < WRAP && maxDepth >= 0.0
    ensures r.queue == Push(q.queue, q.lastGiven, q.timebase, maxDepth, p)
  {
    if TooLate(q.lastGiven, p.seqNum) then q.(late := q.late + [p])
    else
      var scanned := InsertByScan(q.queue, p);
      var n := TrimmedLength(scanned, q.timebase, maxDepth);
      q.(queue := scanned[..n], trimmed := q.trimmed + scanned[n..],
         duplicate := if MeetsDuplicate(q.queue, p) then q.duplicate + [p] else q.duplicate)
  }

  // One method call of RtpPacketQueue. Only the packet of an item is seen.
  function Call(q: QueueState, e: Event, depth: real, maxDepth: real): QueueState
    requires -1 <= q.lastGiven < WRAP && maxDepth >= 0.0
  {
    match e
    case PushEvent(x) => PushCall(q, x.packet, maxDepth)
    case PopEvent(ignoreDepth) =>
      if |q.queue| > 0 && (ignoreDepth || Depth(q.queue, q.timebase) > depth) then
        var oldest := q.queue[|q.queue| - 1];
        q.(queue := q.queue[..|q.queue| - 1], lastGiven := oldest.seqNum, given := q.given + [oldest])
      else q
    case TimebaseEvent(t) => q.(timebase := t)
  }

  function Calls(events: seq<Event>, depth: real, maxDepth: real): (q: QueueState)
    requires maxDepth >= 0.0
    ensures -1 <= q.lastGiven < WRAP
  {
    if events == [] then NO_PACKETS
    else Call(Calls(events[..|events| - 1], depth, maxDepth), events[|events| - 1], depth, maxDepth)
  }

  function Image(s: Sorted): QueueState {
    QueueState(Packets(s.items), LastGiven(s), s.timebase, Packets(s.given), Packets(s.late), Packets(s.duplicate), Packets(s.trimmed))
  }

  // At every push, the pushed number and everything alive lie in one half window.
  ghost predicate LegalEvents(events: seq<Event>, depth: real, maxDepth: real)
    requires maxDepth >= 0.0
  {
    events == [] ||
      var before, e := events[..|events| - 1], events[|events| - 1];
      && LegalEvents(before, depth, maxDepth)
      && (e.PushEvent? ==> exists b :: InWindow(b, Run(EMPTY, before, depth, maxDepth)) && LivePush(b, e.item))
  }

  ghost predicate LivePush(b: int, x: Item) { b <= x.u < b + HALF && x.packet.seqNum == x.u % WRAP }

  ghost predicate Tagged(items: seq<Item>) { forall i :: 0 <= i < |items| ==> items[i].packet.seqNum == items[i].u % WRAP }

  lemma {:induction false} InsertTagged(items: seq<Item>, x: Item)
    requires Tagged(items) && x.packet.seqNum == x.u % WRAP
    ensures Tagged(InsertDescending(items, x))
  {
    if items != [] && !(items[0].u < x.u) {
      InsertTagged(items[1..], x);
    }
  }

  lemma PushTagged(s: Sorted, x: Item, maxDepth: real)
    requires Tagged(s.items) && x.packet.seqNum == x.u % WRAP && maxDepth >= 0.0
    ensures Tagged(PushItem(s, x, maxDepth).items)
  {
    hide TrimmedLength, Contains;
    InsertTagged(s.items, x);
  }

  lemma PopImage(s: Sorted, ignoreDepth: bool, depth: real)
    requires Tagged(s.items)
    ensures Call(Image(s), PopEvent(ignoreDepth), depth, 0.0) == Image(PopItem(s, ignoreDepth, depth))
    ensures Tagged(PopItem(s, ignoreDepth, depth).items)
  {
    hide Depth;
    if s.items != [] {
      var n := |s.items| - 1;
      assert Packets(s.items)[..n] == Packets(s.items[..n]);
      assert Packets(s.given + [s.items[n]]) == Packets(s.given) + [s.items[n].packet];
    }
  }

  lemma PacketsOneMore(items: seq<Item>, x: Item)
    ensures Packets(items + [x]) == Packets(items) + [x.packet]
  {
  }

  lemma PacketsSplit(items: seq<Item>, n: nat, trimmed: seq<Item>)
    requires n <= |items|
    ensures Packets(items[..n]) == Packets(items)[..n] && Packets(trimmed + items[n..]) == Packets(trimmed) + Packets(items)[n..]
  {
  }

  lemma PushImage(b: int, s: Sorted, x: Item, maxDepth: real)
    requires InOrder(s) && InWindow(b, s) && LivePush(b, x) && Tagged(s.items) && maxDepth >= 0.0
    ensures Call(Image(s), PushEvent(x), 0.0, maxDepth) == Image(PushItem(s, x, maxDepth))
    ensures Tagged(PushItem(s, x, maxDepth).items)
  {
    PushRefines(b, s, x, maxDepth);
    PushTagged(s, x, maxDepth);
    hide Push, TrimmedLength, Contains, InsertDescending, TooLate, InsertByScan, MeetsDuplicate, LastGiven;
    PacketsOneMore(s.late, x);
    PacketsOneMore(s.duplicate, x);
    var items := if Contains(s.items, x.u) then s.items else InsertDescending(s.items, x);
    PacketsSplit(items, TrimmedLength(Packets(items), s.timebase, maxDepth), s.trimmed);
  }

  // The queue of 16-bit numbers does on every legal run what the sorted set of
  // unwrapped numbers does: same contents, same packets given out.
  lemma {:induction false} RunRefines(events: seq<Event>, depth: real, maxDepth: real)
    requires maxDepth >= 0.0 && LegalEvents(events, depth, maxDepth)
    ensures Calls(events, depth, maxDepth) == Image(Run(EMPTY, events, depth, maxDepth))
    ensures Tagged(Run(EMPTY, events, depth, maxDepth).items)
  {
    if events != [] {
      var before, e := events[..|events| - 1], events[|events| - 1];
      RunRefines(before, depth, maxDepth);
      RunInOrder(before, depth, maxDepth);
      var s := Run(EMPTY, before, depth, maxDepth);
      hide Push, PushItem, PopItem, InOrder, Depth, InWindow, Packets;
      match e
      case PushEvent(x) =>
        var b :| InWindow(b, s) && LivePush(b, x);
        PushImage(b, s, x, maxDepth);
      case PopEvent(ignoreDepth) =>
        PopImage(s, ignoreDepth, depth);
      case TimebaseEvent(_) =>
    }
  }

  // ---- Accounting, for every run ---------------------------------------------------------

  ghost function AllPackets(q: QueueState): multiset<RtpPacket> {
    multiset(q.queue) + multiset(q.given) + multiset(q.late) + multiset(q.duplicate) + multiset(q.trimmed)
  }

  lemma {:induction false} ScanAccounts(queue: seq<RtpPacket>, p: RtpPacket)
    ensures multiset(InsertByScan(queue, p)) == multiset(queue) + (if MeetsDuplicate(queue, p) then multiset{} else multiset{p})
  {
    hide RtpSequenceLessThan;
    if queue == [] || queue[0].seqNum == p.seqNum {
    } else if RtpSequenceLessThan(queue[0].seqNum, p.seqNum) {
      MultisetCons(p, queue);
    } else {
      var rest := queue[1..];
      ScanAccounts(rest, p);
      assert queue == [queue[0]] + rest;
      assert InsertByScan(queue, p) == [queue[0]] + InsertByScan(rest, p) && MeetsDuplicate(queue, p) == MeetsDuplicate(rest, p);
      hide InsertByScan, MeetsDuplicate;
      MultisetCons(queue[0], rest);
      MultisetCons(queue[0], InsertByScan(rest, p));
    }
  }

  lemma MultisetCons<T>(x: T, s: seq<T>)
    ensures multiset([x] + s) == multiset{x} + multiset(s)
  {
  }

  lemma PopCallAccounts(q: QueueState, ignoreDepth: bool, depth: real, maxDepth: real)
    requires -1 <= q.lastGiven < WRAP && maxDepth >= 0.0
    ensures AllPackets(Call(q, PopEvent(ignoreDepth), depth, maxDepth)) == AllPackets(q)
  {
    hide Depth;
    if q.queue != [] {
      var n := |q.queue| - 1;
      assert q.queue == q.queue[..n] + [q.queue[n]];
      assert multiset(q.given + [q.queue[n]]) == multiset(q.given) + multiset{q.queue[n]};
    }
  }

  lemma PushCallAccounts(q: QueueState, p: RtpPacket, maxDepth: real)
    requires -1 <= q.lastGiven < WRAP && maxDepth >= 0.0
    ensures AllPackets(PushCall(q, p, maxDepth)) == AllPackets(q) + multiset{p}
  {
    hide TrimmedLength, InsertByScan, MeetsDuplicate, Push, TooLate;
    if TooLate(q.lastGiven, p.seqNum) {
      assert multiset(q.late + [p]) == multiset(q.late) + multiset{p};
    } else {
      var scanned, next := InsertByScan(q.queue, p), PushCall(q, p, maxDepth);
      ScanAccounts(q.queue, p);
      SplitAccounts(scanned, TrimmedLength(scanned, q.timebase, maxDepth), q.trimmed);
      assert multiset(scanned) + multiset(next.duplicate) == multiset(q.queue) + multiset(q.duplicate) + multiset{p};
      SumAccounts(multiset(q.queue), multiset(q.trimmed), multiset(next.queue), multiset(next.trimmed), multiset(scanned),
                  multiset(q.duplicate), multiset(next.duplicate), multiset{p}, multiset(q.given), multiset(q.late));
    }
  }

  // Over every run of the queue, in whatever windows its numbers lie, the pushed packets
  // are exactly those queued, given out, late, duplicate and trimmed.
  lemma {:induction false} RunAccounts(events: seq<Event>, depth: real, maxDepth: real)
    requires maxDepth >= 0.0
    ensures AllPackets(Calls(events, depth, maxDepth)) == multiset(Packets(Pushed(events)))
  {
    if events != [] {
      var before, e := events[..|events| - 1], events[|events| - 1];
      var q := Calls(before, depth, maxDepth);
      RunAccounts(before, depth, maxDepth);
      hide PushCall, Packets, Depth, AllPackets;
      match e
      case PushEvent(x) =>
        PushCallAccounts(q, x.packet, maxDepth);
        PacketsOneMore(Pushed(before), x);
      case PopEvent(ignoreDepth) => PopCallAccounts(q, ignoreDepth, depth, maxDepth);
      case TimebaseEvent(_) =>
    }
  }

  // ---- Losses are short ------------------------------------------------------------------

  // Everything queued lies within half the circle, and so do packets given out one after
  // the other.
  ghost predicate Close(s: Sorted) {
    && (forall i, j :: 0 <= i < |s.items| && 0 <= j < |s.items| ==> s.items[i].u - s.items[j].u < HALF)
    && (s.last.Some? <==> s.given != [])
    && (s.given != [] ==> s.given[|s.given| - 1].u == s.last.value && forall i :: 0 <= i < |s.items| ==> s.items[i].u - s.last.value < HALF)
    && (forall i :: 0 < i < |s.given| ==> s.given[i].u - s.given[i - 1].u < HALF)
  }

  lemma PushedMembers(s: Sorted, x: Item, maxDepth: real)
    requires maxDepth >= 0.0
    ensures forall y :: y in PushItem(s, x, maxDepth).items ==> y in s.items || y == x
  {
    hide TrimmedLength, Contains;
    var inserted := InsertDescending(s.items, x);
    forall y | y in inserted
      ensures y in s.items || y == x
    {
      assert y in multiset(inserted);
    }
  }

  lemma PushStaysInWindow(b: int, s: Sorted, x: Item, maxDepth: real)
    requires InWindow(b, s) && LivePush(b, x) && maxDepth >= 0.0
    ensures var t := PushItem(s, x, maxDepth);
      (forall i :: 0 <= i < |t.items| ==> b <= t.items[i].u < b + HALF) && (s.last.Some? ==> b <= s.last.value < b + HALF)
  {
    PushedMembers(s, x, maxDepth);
    hide TrimmedLength, Contains, InsertDescending, PushItem;
    var t := PushItem(s, x, maxDepth);
    assert forall i :: 0 <= i < |t.items| ==> t.items[i] in t.items;
  }

  lemma PushKeepsClose(b: int, s: Sorted, x: Item, maxDepth: real)
    requires Close(s) && InWindow(b, s) && LivePush(b, x) && maxDepth >= 0.0
    ensures Close(PushItem(s, x, maxDepth))
  {
    PushStaysInWindow(b, s, x, maxDepth);
    KeepsGiven(s, x, maxDepth);
    hide InWindow, LivePush, PushItem;
  }

  lemma KeepsGiven(s: Sorted, x: Item, maxDepth: real)
    requires maxDepth >= 0.0
    ensures var t := PushItem(s, x, maxDepth); t.last == s.last && t.given == s.given
  {
  }

  lemma TimebaseKeepsClose(s: Sorted, t: nat)
    requires Close(s)
    ensures Close(s.(timebase := t))
  {
  }

  lemma PopKeepsClose(s: Sorted, ignoreDepth: bool, depth: real)
    requires Close(s)
    ensures Close(PopItem(s, ignoreDepth, depth))
  {
    hide Depth;
  }

  lemma {:induction false} RunIsClose(events: seq<Event>, depth: real, maxDepth: real)
    requires maxDepth >= 0.0 && LegalEvents(events, depth, maxDepth)
    ensures Close(Run(EMPTY, events, depth, maxDepth))
  {
    if events != [] {
      var before, e := events[..|events| - 1], events[|events| - 1];
      var s := Run(EMPTY, before, depth, maxDepth);
      RunIsClose(before, depth, maxDepth);
      hide PushItem, PopItem, Depth, InWindow, LivePush, Close;
      match e
      case PushEvent(x) =>
        var b :| InWindow(b, s) && LivePush(b, x);
        PushKeepsClose(b, s, x, maxDepth);
      case PopEvent(ignoreDepth) => PopKeepsClose(s, ignoreDepth, depth);
      case TimebaseEvent(t) => TimebaseKeepsClose(s, t);
    }
  }
}
