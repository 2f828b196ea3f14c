// WebRtcConnection::sendLoop: video packets above the target bit rate are dropped,
// window by window.
module RateLimiter {
  import opened Integers

  // A window is open for at least this many milliseconds.
  const WINDOW: nat := 100
  const WORD: nat := 0x1_0000_0000
  // The size of the buffer of a packet.
  const MAX_PACKET: nat := 1500

  datatype PacketType = VideoPacket | AudioPacket | OtherPacket

  // A packet of the send queue, with what the loop reads when it takes the packet out:
  // the clock, in milliseconds, and rateControl_, which other threads may change.
  datatype DataPacket = DataPacket(comp: int, kind: PacketType, length: nat, now: nat, rate: u32)

  datatype Counters = Counters(mark: nat, sentVideoBytes: nat, lastSecondVideoBytes: nat)

  // Bytes admitted since the window was opened.
  function InWindow(c: Counters): int { c.sentVideoBytes - c.lastSecondVideoBytes }

  // The difference of the times is unsigned: it is huge if the clock has gone back.
  predicate Opens(c: Counters, now: nat) { now < c.mark || now - c.mark >= WINDOW }

  function Opened(c: Counters, now: nat): Counters {
    if Opens(c, now) then c.(mark := now, lastSecondVideoBytes := c.sentVideoBytes) else c
  }

  // A video packet is admitted unless the window already has more than the rate, in
  // bits per second, allows for a tenth of a second. The product has 32 bits.
  predicate Admits(c: Counters, p: DataPacket) {
    InWindow(Opened(c, p.now)) * 8 * 10 % WORD <= p.rate
  }

  function Step(c: Counters, p: DataPacket): Counters {
    var o := Opened(c, p.now);
    if Admits(c, p) then o.(sentVideoBytes := o.sentVideoBytes + p.length) else o
  }

  function Run(c: Counters, ps: seq<DataPacket>): Counters {
    if ps == [] then c else Step(Run(c, ps[..|ps| - 1]), ps[|ps| - 1])
  }

  lemma RunOneMore(c: Counters, ps: seq<DataPacket>, p: DataPacket)
    ensures Run(c, ps + [p]) == Step(Run(c, ps), p)
  {
    assert (ps + [p])[..|ps|] == ps;
  }

  // ---- One window ----------------------------------------------------------------------

  // What one window may hold: a tenth of a second at the rate, and one packet.
  function Quota(rate: u32, max: nat): nat { rate / 80 + max }

  ghost predicate WithinQuota(c: Counters, rate: u32, max: nat) { 0 <= InWindow(c) <= Quota(rate, max) }

  // Neither the lengths nor the rates exceed these.
  ghost predicate AtMost(ps: seq<DataPacket>, rate: u32, max: nat) {
    forall i :: 0 <= i < |ps| ==> ps[i].length <= max && ps[i].rate <= rate
  }

  lemma StepBounds(c: Counters, rate: u32, max: nat, p: DataPacket)
    requires 80 * Quota(rate, max) < WORD && WithinQuota(c, rate, max) && p.length <= max && p.rate <= rate
    ensures WithinQuota(Step(c, p), rate, max)
  {
    var w := InWindow(Opened(c, p.now));
    assert w * 8 * 10 % WORD == 80 * w;
  }

  // ---- A run of video packets -----------------------------------------------------------

  // How many windows are opened.
  function Windows(c: Counters, ps: seq<DataPacket>): nat {
    if ps == [] then 0
    else
      var init := ps[..|ps| - 1];
      Windows(c, init) + (if Opens(Run(c, init), ps[|ps| - 1].now) then 1 else 0)
  }

  // The clock does not go back.
  ghost predicate Monotone(from_: nat, ps: seq<DataPacket>) {
    && (forall i :: 0 <= i < |ps| ==> from_ <= ps[i].now)
    && (forall i, j :: 0 <= i < j < |ps| ==> ps[i].now <= ps[j].now)
  }

  // No window holds more than its quota, and every window that is closed adds at most
  // a quota.
  lemma {:induction false} RunWithinQuota(c: Counters, rate: u32, max: nat, ps: seq<DataPacket>)
    requires 80 * Quota(rate, max) < WORD && WithinQuota(c, rate, max) && AtMost(ps, rate, max)
    ensures var d := Run(c, ps);
      WithinQuota(d, rate, max) && d.lastSecondVideoBytes <= c.lastSecondVideoBytes + Quotas(Windows(c, ps), rate, max)
  {
    if ps != [] {
      var init, n := ps[..|ps| - 1], |ps| - 1;
      RunWithinQuota(c, rate, max, init);
      StepBounds(Run(c, init), rate, max, ps[n]);
      OneMoreQuota(Windows(c, init), rate, max);
      hide Quota, Quotas, Admits;
    }
  }

  function Quotas(windows: nat, rate: u32, max: nat): nat { windows * Quota(rate, max) }

  lemma OneMoreQuota(windows: nat, rate: u32, max: nat)
    ensures Quotas(windows + 1, rate, max) == Quotas(windows, rate, max) + Quota(rate, max)
  {
  }

  lemma {:induction false} MoreQuotas(w: nat, v: nat, rate: u32, max: nat)
    requires w <= v
    ensures Quotas(w, rate, max) <= Quotas(v, rate, max)
  {
    if w < v {
      MoreQuotas(w, v - 1, rate, max);
      OneMoreQuota(v - 1, rate, max);
    }
  }

  // ---- The 32-bit product ----------------------------------------------------------------

  // The counters when the loop begins.
  function Start(mark: nat): Counters { Counters(mark, 0, 0) }

  function VideoAt(now: nat, length: nat, rate: u32): DataPacket { DataPacket(0, VideoPacket, length, now, rate) }

  function Repeated(p: DataPacket, n: nat): (ps: seq<DataPacket>)
    ensures |ps| == n && forall i :: 0 <= i < n ==> ps[i] == p
  {
    seq(n, _ => p)
  }

  lemma {:induction false} UnitPackets(now: nat, rate: u32, n: nat)
    requires 80 * n <= rate + 80
    ensures Run(Start(now), Repeated(VideoAt(now, 1, rate), n)) == Counters(now, n, 0)
  {
    if n > 0 {
      UnitPackets(now, rate, n - 1);
      assert Repeated(VideoAt(now, 1, rate), n)[..n - 1] == Repeated(VideoAt(now, 1, rate), n - 1);
      assert (n - 1) * 8 * 10 % WORD == 80 * (n - 1);
    }
  }

  // All within one millisecond: packets of one octet up to a tenth of a second at the
  // rate, and then two that are as long as allowed.
  function OverflowRun(now: nat, rate: u32, max: nat): seq<DataPacket> {
    Repeated(VideoAt(now, 1, rate), rate / 80) + [VideoAt(now, max, rate)] + [VideoAt(now, max, rate)]
  }

  // When eighty quotas do not fit a 32-bit word, the second of them is admitted.
  lemma OverflowBreaksQuota(now: nat, rate: u32, max: nat)
    requires 0 < max <= MAX_PACKET && 80 * Quota(rate, max) >= WORD
    ensures AtMost(OverflowRun(now, rate, max), rate, max)
    ensures !WithinQuota(Run(Start(now), OverflowRun(now, rate, max)), rate, max)
  {
    var p, n := VideoAt(now, max, rate), rate / 80;
    var units := Repeated(VideoAt(now, 1, rate), n);
    UnitPackets(now, rate, n);
    RunOneMore(Start(now), units, p);
    RunOneMore(Start(now), units + [p], p);
    WrapsBelowRate(rate, max);
    SameWindow(now, n, max, rate);
    SameWindow(now, n + max, max, rate);
    hide Run, Step;
  }

  lemma WrapsBelowRate(rate: u32, max: nat)
    requires 0 < max <= MAX_PACKET && 80 * Quota(rate, max) >= WORD
    ensures 80 * (rate / 80) % WORD <= rate && 80 * (rate / 80 + max) % WORD <= rate
  {
    var n := rate / 80;
    assert 80 * n <= rate && 80 * n % WORD == 80 * n;
    assert 80 * (n + max) % WORD == 80 * (n + max) - WORD;
  }

  lemma SameWindow(now: nat, w: nat, length: nat, rate: u32)
    requires 80 * w % WORD <= rate
    ensures Step(Counters(now, w, 0), VideoAt(now, length, rate)) == Counters(now, w + length, 0)
  {
  }

  // The exact condition: every run from the beginning keeps every window within its
  // quota if and only if eighty quotas fit a 32-bit word.
  lemma QuotaKeptExactly(now: nat, rate: u32, max: nat)
    requires 0 < max <= MAX_PACKET
    ensures (forall ps :: AtMost(ps, rate, max) ==> WithinQuota(Run(Start(now), ps), rate, max)) <==> 80 * Quota(rate, max) < WORD
  {
    if 80 * Quota(rate, max) < WORD {
      forall ps | AtMost(ps, rate, max)
        ensures WithinQuota(Run(Start(now), ps), rate, max)
      {
        RunWithinQuota(Start(now), rate, max, ps);
      }
    } else {
      OverflowBreaksQuota(now, rate, max);
    }
  }

  // ---- Any interval ---------------------------------------------------------------------

  // Windows open at least 100 ms apart: the ones that are opened by packets of an
  // interval fit into it, but for one.
  lemma {:induction false} WindowsApart(c: Counters, ps: seq<DataPacket>, lo: nat)
    requires Monotone(lo, ps)
    ensures var n, d := Windows(c, ps), Run(c, ps);
      && (n == 0 ==> d.mark == c.mark)
      && (n > 0 ==> lo + WINDOW * (n - 1) <= d.mark <= ps[|ps| - 1].now)
  {
    hide Admits;
    if ps != [] {
      WindowsApart(c, ps[..|ps| - 1], lo);
    }
  }

  // Video bytes admitted by a run within any interval: the window that is open at its
  // beginning, and all that are opened in it.
  lemma IntervalBytes(c: Counters, rate: u32, max: nat, during: seq<DataPacket>, lo: nat, duration: nat)
    requires 80 * Quota(rate, max) < WORD && WithinQuota(c, rate, max) && AtMost(during, rate, max)
    requires Monotone(lo, during) && forall i :: 0 <= i < |during| ==> during[i].now <= lo + duration
    ensures Run(c, during).sentVideoBytes - c.sentVideoBytes <= Quotas(duration / 100 + 2, rate, max)
  {
    var n := Windows(c, during);
    RunWithinQuota(c, rate, max, during);
    WindowsApart(c, during, lo);
    assert n <= duration / 100 + 1;
    OneMoreQuota(n, rate, max);
    MoreQuotas(n + 1, duration / 100 + 2, rate, max);
    hide Quota, Quotas, Run, Windows;
  }

  // ---- The loop ---------------------------------------------------------------------------

  // The counters, and what has been written to the two transports.
  datatype Link = Link(counters: Counters, video: seq<DataPacket>, audio: seq<DataPacket>)

  // Video without rate control, video that a rate of 1 blocks, and video whose rate is
  // limited.

  predicate IsFree(p: DataPacket) { p.kind == VideoPacket && p.rate == 0 }

  predicate IsBlocked(p: DataPacket) { p.kind == VideoPacket && p.rate == 1 }

  predicate IsLimited(p: DataPacket) { p.kind == VideoPacket && p.rate > 1 }

  predicate IsOther(p: DataPacket) { p.kind != VideoPacket }

  function LoopStep(l: Link, bundle: bool, p: DataPacket): Link {
    if !bundle && IsOther(p) then l.(audio := l.audio + [p])
    else if IsOther(p) || IsFree(p) then l.(video := l.video + [p])
    else if IsBlocked(p) then l
    else if Admits(l.counters, p) then l.(counters := Step(l.counters, p), video := l.video + [p])
    else l.(counters := Step(l.counters, p))
  }

  function Loop(l: Link, bundle: bool, ps: seq<DataPacket>): Link {
    if ps == [] then l else LoopStep(Loop(l, bundle, ps[..|ps| - 1]), bundle, ps[|ps| - 1])
  }

  function Only(ps: seq<DataPacket>, kept: DataPacket -> bool): seq<DataPacket> {
    if ps == [] then [] else If(Only(ps[..|ps| - 1], kept), kept(ps[|ps| - 1]), ps[|ps| - 1])
  }

  function If(ps: seq<DataPacket>, yes: bool, p: DataPacket): seq<DataPacket> { if yes then ps + [p] else ps }

  function Bytes(ps: seq<DataPacket>): nat {
    if ps == [] then 0 else Bytes(ps[..|ps| - 1]) + ps[|ps| - 1].length
  }

  lemma OnlyOneMore(ps: seq<DataPacket>, p: DataPacket, kept: DataPacket -> bool)
    ensures Only(ps + [p], kept) == If(Only(ps, kept), kept(p), p)
  {
    assert (ps + [p])[..|ps|] == ps;
  }

  lemma BytesOneMore(ps: seq<DataPacket>, p: DataPacket)
    ensures Bytes(ps + [p]) == Bytes(ps) + p.length
  {
    assert (ps + [p])[..|ps|] == ps;
  }

  lemma OneMore(l: Link, bundle: bool, ps: seq<DataPacket>, kept: DataPacket -> bool)
    requires ps != []
    ensures var init, p := ps[..|ps| - 1], ps[|ps| - 1];
      Loop(l, bundle, ps) == LoopStep(Loop(l, bundle, init), bundle, p) && Only(ps, kept) == If(Only(init, kept), kept(p), p)
  {
    hide LoopStep;
  }

  // Packets that are not video are never dropped or reordered.
  lemma {:induction false} OthersPass(l: Link, bundle: bool, ps: seq<DataPacket>)
    ensures var m := Loop(l, bundle, ps);
      if bundle then Only(m.video, IsOther) == Only(l.video, IsOther) + Only(ps, IsOther) && m.audio == l.audio
      else m.audio == l.audio + Only(ps, IsOther) && Only(m.video, IsOther) == Only(l.video, IsOther)
  {
    if ps != [] {
      var init, p := ps[..|ps| - 1], ps[|ps| - 1];
      OthersPass(l, bundle, init);
      OthersStep(Loop(l, bundle, init), bundle, p);
      OneMore(l, bundle, ps, IsOther);
      hide Loop, LoopStep, Only;
    }
  }

  lemma OthersStep(l: Link, bundle: bool, p: DataPacket)
    ensures var m, other := LoopStep(l, bundle, p), If([], IsOther(p), p);
      if bundle then Only(m.video, IsOther) == Only(l.video, IsOther) + other && m.audio == l.audio
      else m.audio == l.audio + other && Only(m.video, IsOther) == Only(l.video, IsOther)
  {
    OnlyOneMore(l.video, p, IsOther);
    hide Step, Admits, Only;
  }

  // Video passes without rate control, does not with a rate of 1, and what passes with
  // any other rate is what the counters admit; all in order.
  lemma {:induction false} VideoPasses(l: Link, bundle: bool, ps: seq<DataPacket>)
    ensures var m := Loop(l, bundle, ps);
      && Only(m.video, IsFree) == Only(l.video, IsFree) + Only(ps, IsFree)
      && Only(m.video, IsBlocked) == Only(l.video, IsBlocked)
      && m.counters == Run(l.counters, Only(ps, IsLimited)) && Unaccounted(m) == Unaccounted(l)
  {
    if ps != [] {
      var init, p := ps[..|ps| - 1], ps[|ps| - 1];
      VideoPasses(l, bundle, init);
      VideoStep(Loop(l, bundle, init), bundle, p);
      OneMore(l, bundle, ps, IsFree);
      OneMore(l, bundle, ps, IsLimited);
      RunOneMore(l.counters, Only(init, IsLimited), p);
      hide Loop, LoopStep, Only, Run, Step, Unaccounted, IsFree, IsLimited, IsBlocked;
    }
  }

  // Limited video bytes that are written but not counted.
  function Unaccounted(l: Link): int { Bytes(Only(l.video, IsLimited)) - l.counters.sentVideoBytes }

  lemma VideoStep(l: Link, bundle: bool, p: DataPacket)
    ensures var m := LoopStep(l, bundle, p);
      && Only(m.video, IsFree) == If(Only(l.video, IsFree), IsFree(p), p)
      && Only(m.video, IsBlocked) == Only(l.video, IsBlocked)
      && m.counters == (if IsLimited(p) then Step(l.counters, p) else l.counters) && Unaccounted(m) == Unaccounted(l)
  {
    hide Step, Admits, Only, Bytes;
    OnlyOneMore(l.video, p, IsFree);
    OnlyOneMore(l.video, p, IsBlocked);
    OnlyOneMore(l.video, p, IsLimited);
    BytesOneMore(Only(l.video, IsLimited), p);
    StepCounts(l.counters, p);
  }

  lemma StepCounts(c: Counters, p: DataPacket)
    ensures Step(c, p).sentVideoBytes == c.sentVideoBytes + (if Admits(c, p) then p.length else 0)
  {
    hide Admits;
  }

  lemma {:induction false} LoopJoined(l: Link, bundle: bool, ps: seq<DataPacket>, qs: seq<DataPacket>)
    ensures Loop(l, bundle, ps + qs) == Loop(Loop(l, bundle, ps), bundle, qs)
  {
    hide LoopStep;
    if qs == [] {
      assert ps + qs == ps;
    } else {
      LoopJoined(l, bundle, ps, qs[..|qs| - 1]);
      assert (ps + qs)[..|ps + qs| - 1] == ps + qs[..|qs| - 1];
    }
  }

  lemma {:induction false} OnlySound(ps: seq<DataPacket>, rate: u32, max: nat, lo: nat, hi: nat)
    requires AtMost(ps, rate, max) && Monotone(lo, ps) && forall i :: 0 <= i < |ps| ==> ps[i].now <= hi
    ensures var some := Only(ps, IsLimited);
      AtMost(some, rate, max) && Monotone(lo, some) && forall i :: 0 <= i < |some| ==> some[i].now <= hi
    decreases |ps|
  {
    if ps != [] {
      OnlySound(ps[..|ps| - 1], rate, max, lo, ps[|ps| - 1].now);
    }
  }

  lemma {:induction false} OnlyAtMost(ps: seq<DataPacket>, rate: u32, max: nat)
    requires AtMost(ps, rate, max)
    ensures AtMost(Only(ps, IsLimited), rate, max)
  {
    if ps != [] {
      OnlyAtMost(ps[..|ps| - 1], rate, max);
    }
  }

  // The rate limit, for any traffic with a clock that does not go back and whatever the
  // rate is set to below some bound: the limited video bytes that are written within
  // any interval stay below the quotas of the windows that can meet it.
  lemma RateLimited(l: Link, bundle: bool, rate: u32, max: nat, before: seq<DataPacket>, during: seq<DataPacket>, lo: nat, duration: nat)
    requires 80 * Quota(rate, max) < WORD && WithinQuota(l.counters, rate, max)
    requires AtMost(before, rate, max) && AtMost(during, rate, max)
    requires Monotone(lo, during) && forall i :: 0 <= i < |during| ==> during[i].now <= lo + duration
    ensures Bytes(Only(Loop(l, bundle, before + during).video, IsLimited)) - Bytes(Only(Loop(l, bundle, before).video, IsLimited))
            <= Quotas(duration / 100 + 2, rate, max)
  {
    var m := Loop(l, bundle, before);
    LoopJoined(l, bundle, before, during);
    VideoPasses(l, bundle, before);
    VideoPasses(m, bundle, during);
    OnlyAtMost(before, rate, max);
    RunWithinQuota(l.counters, rate, max, Only(before, IsLimited));
    OnlySound(during, rate, max, lo, lo + duration);
    IntervalBytes(m.counters, rate, max, Only(during, IsLimited), lo, duration);
  }

  // ---- What is left out is too much --------------------------------------------------------

  // Limited video packets taken out at that time or later.
  function LimitedSince(time: int): DataPacket -> bool { p => IsLimited(p) && p.now >= time }

  lemma {:induction false} FewerBytes(ps: seq<DataPacket>, early: int, late: int)
    requires early <= late
    ensures Bytes(Only(ps, LimitedSince(late))) <= Bytes(Only(ps, LimitedSince(early)))
  {
    if ps != [] {
      var init, p := ps[..|ps| - 1], ps[|ps| - 1];
      FewerBytes(init, early, late);
      BytesOneMore(Only(init, LimitedSince(early)), p);
      BytesOneMore(Only(init, LimitedSince(late)), p);
    }
  }

  // What the window counts has been written since the window was opened.
  ghost predicate CountsWritten(l: Link) {
    0 <= InWindow(l.counters) <= Bytes(Only(l.video, LimitedSince(l.counters.mark)))
  }

  lemma WrittenOneMore(video: seq<DataPacket>, p: DataPacket, time: int)
    ensures Bytes(Only(video + [p], LimitedSince(time))) ==
      Bytes(Only(video, LimitedSince(time))) + (if IsLimited(p) && p.now >= time then p.length else 0)
  {
    OnlyOneMore(video, p, LimitedSince(time));
    BytesOneMore(Only(video, LimitedSince(time)), p);
    hide Only, Bytes;
  }

  lemma StepCountsWritten(l: Link, bundle: bool, p: DataPacket)
    requires CountsWritten(l) && l.counters.mark <= p.now
    ensures CountsWritten(LoopStep(l, bundle, p))
    ensures l.counters.mark <= LoopStep(l, bundle, p).counters.mark <= p.now
  {
    WrittenOneMore(l.video, p, l.counters.mark);
    WrittenOneMore(l.video, p, p.now);
    hide Only, Bytes, LimitedSince, Admits;
  }

  lemma {:induction false} LoopCountsWritten(mark: nat, video: seq<DataPacket>, audio: seq<DataPacket>, bundle: bool, ps: seq<DataPacket>)
    requires Monotone(mark, ps)
    ensures var m := Loop(Link(Start(mark), video, audio), bundle, ps);
      CountsWritten(m) && mark <= m.counters.mark <= (if ps == [] then mark else ps[|ps| - 1].now)
  {
    if ps != [] {
      LoopCountsWritten(mark, video, audio, bundle, ps[..|ps| - 1]);
      hide CountsWritten, LoopStep, InWindow;
      StepCountsWritten(Loop(Link(Start(mark), video, audio), bundle, ps[..|ps| - 1]), bundle, ps[|ps| - 1]);
    }
  }

  // Where a packet goes: one that is not video to its transport, video with a rate of 0
  // out, with a rate of 1 nowhere, and with a higher rate out, unless the limited video
  // octets written in the 100 ms before make more than that rate.
  ghost predicate Treated(before: Link, after: Link, bundle: bool, p: DataPacket) {
    if p.kind != VideoPacket then
      if bundle then after.video == before.video + [p] && after.audio == before.audio
      else after.audio == before.audio + [p] && after.video == before.video
    else
      && after.audio == before.audio
      && (after.video == before.video + [p] || after.video == before.video)
      && (p.rate == 0 ==> after.video == before.video + [p])
      && (p.rate == 1 ==> after.video == before.video)
      && (p.rate > 1 && after.video == before.video ==> 80 * Bytes(Only(before.video, LimitedSince(p.now - 99))) > p.rate)
  }

  lemma StepTreats(l: Link, bundle: bool, p: DataPacket)
    requires CountsWritten(l) && l.counters.mark <= p.now
    ensures Treated(l, LoopStep(l, bundle, p), bundle, p)
  {
    hide Only, Bytes, LimitedSince, Admits, Step;
    if !Admits(l.counters, p) {
      NotAdmitted(l.counters, p);
      FewerBytes(l.video, p.now - 99, l.counters.mark);
    }
  }

  // So it is for every packet of every run, with a clock that does not go back.
  lemma LeavesOutOnlyTooMuch(mark: nat, video: seq<DataPacket>, audio: seq<DataPacket>, bundle: bool, ps: seq<DataPacket>, p: DataPacket)
    requires Monotone(mark, ps + [p])
    ensures var start := Link(Start(mark), video, audio);
      Treated(Loop(start, bundle, ps), Loop(start, bundle, ps + [p]), bundle, p)
  {
    AsBefore(mark, ps, p);
    LoopCountsWritten(mark, video, audio, bundle, ps);
    var before := Loop(Link(Start(mark), video, audio), bundle, ps);
    assert Loop(Link(Start(mark), video, audio), bundle, ps + [p]) == LoopStep(before, bundle, p) by { assert (ps + [p])[..|ps|] == ps; }
    hide *;
    StepTreats(before, bundle, p);
  }

  lemma AsBefore(mark: nat, ps: seq<DataPacket>, p: DataPacket)
    requires Monotone(mark, ps + [p])
    ensures Monotone(mark, ps) && mark <= p.now && (ps != [] ==> ps[|ps| - 1].now <= p.now)
  {
    var all := ps + [p];
    assert all[|ps|] == p && forall i :: 0 <= i < |ps| ==> all[i] == ps[i];
  }

  lemma NotAdmitted(c: Counters, p: DataPacket)
    requires !Admits(c, p) && 0 <= InWindow(c) && c.mark <= p.now
    ensures p.now - 99 <= c.mark && 80 * InWindow(c) > p.rate
  {
    var x := InWindow(c) * 80;
    assert x % WORD <= x;
  }

  // So a limited packet always passes if none was written in the 100 ms before.
  lemma PassesAfterPause(mark: nat, video: seq<DataPacket>, audio: seq<DataPacket>, bundle: bool, ps: seq<DataPacket>, p: DataPacket)
    requires Monotone(mark, ps + [p]) && p.kind == VideoPacket && p.rate > 1
    requires forall q :: q in Loop(Link(Start(mark), video, audio), bundle, ps).video && IsLimited(q) ==> q.now + 100 <= p.now
    ensures Loop(Link(Start(mark), video, audio), bundle, ps + [p]).video == Loop(Link(Start(mark), video, audio), bundle, ps).video + [p]
  {
    LeavesOutOnlyTooMuch(mark, video, audio, bundle, ps, p);
    hide Loop, Only, LimitedSince;
    NoneSince(Loop(Link(Start(mark), video, audio), bundle, ps).video, p.now - 99);
  }

  lemma {:induction false} NoneSince(ps: seq<DataPacket>, time: int)
    requires forall q :: q in ps && IsLimited(q) ==> q.now < time
    ensures Only(ps, LimitedSince(time)) == []
  {
    if ps != [] {
      NoneSince(ps[..|ps| - 1], time);
      assert ps[|ps| - 1] in ps;
    }
  }

  // A window begins when the loop does or when a packet is taken out.
  lemma {:induction false} MarkIsSeen(mark: nat, video: seq<DataPacket>, audio: seq<DataPacket>, bundle: bool, ps: seq<DataPacket>)
    ensures var m := Loop(Link(Start(mark), video, audio), bundle, ps).counters.mark; m == mark || exists q :: q in ps && q.now == m
    ensures InWindow(Loop(Link(Start(mark), video, audio), bundle, ps).counters) >= 0
  {
    if ps != [] {
      MarkIsSeen(mark, video, audio, bundle, ps[..|ps| - 1]);
      hide Admits;
    }
  }

  // A clock that has gone back behind all of these opens a window, too.
  lemma PassesWhenClockGoesBack(mark: nat, video: seq<DataPacket>, audio: seq<DataPacket>, bundle: bool, ps: seq<DataPacket>, p: DataPacket)
    requires p.kind == VideoPacket && p.rate > 1 && p.now < mark && forall q :: q in ps ==> p.now < q.now
    ensures Loop(Link(Start(mark), video, audio), bundle, ps + [p]).video == Loop(Link(Start(mark), video, audio), bundle, ps).video + [p]
  {
    MarkIsSeen(mark, video, audio, bundle, ps);
    assert (ps + [p])[..|ps|] == ps;
    var before := Loop(Link(Start(mark), video, audio), bundle, ps);
    assert Loop(Link(Start(mark), video, audio), bundle, ps + [p]) == LoopStep(before, bundle, p);
    hide Loop;
    assert InWindow(Opened(before.counters, p.now)) == 0;
  }

  // The packets before the one that ends the thread.
  function UntilStop(queue: seq<DataPacket>): (ps: seq<DataPacket>)
    ensures |ps| <= |queue| && ps == queue[..|ps|]
    ensures forall i :: 0 <= i < |ps| ==> ps[i].comp != -1
    ensures |ps| < |queue| ==> queue[|ps|].comp == -1
  {
    if queue == [] || queue[0].comp == -1 then [] else [queue[0]] + UntilStop(queue[1..])
  }

  class WebRtcConnection {
    var sending: bool
    var bundle: bool
    var mark: nat
    // What the transports have been given.
    var videoTransport: seq<DataPacket>
    var audioTransport: seq<DataPacket>

    constructor (bundle: bool, now: nat)
      ensures sending && this.bundle == bundle && mark == now && videoTransport == [] && audioTransport == []
    {
      sending, this.bundle, mark := true, bundle, now;
      videoTransport, audioTransport := [], [];
    }

    // The loop, as far as the queue goes: behind its end the thread waits.
    method SendLoop(queue: seq<DataPacket>)
      requires sending
      modifies this`sending, this`mark, this`videoTransport, this`audioTransport
      ensures sending <==> UntilStop(queue) == queue
      ensures var l := Loop(Link(Start(old(mark)), old(videoTransport), old(audioTransport)), bundle, UntilStop(queue));
        videoTransport == l.video && audioTransport == l.audio && mark == l.counters.mark
    {
      hide Loop;
      ghost var start := Link(Start(mark), videoTransport, audioTransport);
      ghost var ps := UntilStop(queue);
      var sentVideoBytes: nat, lastSecondVideoBytes: nat, i := 0, 0, 0;
      assert start == Loop(start, bundle, ps[..0]) by { LoopNothing(start, bundle); }
      while sending && i < |queue|
        invariant i <= |ps|
        invariant sending || (i == |ps| && ps != queue)
        invariant Link(Counters(mark, sentVideoBytes, lastSecondVideoBytes), videoTransport, audioTransport) == Loop(start, bundle, ps[..i])
        decreases |queue| - i, sending
      {
        var p := queue[i];
        if p.comp == -1 {
          sending := false;
          continue;
        }
        i := i + 1;
        LoopOneMore(start, bundle, ps, i - 1);
        if bundle || p.kind == VideoPacket {
          var rateControl := p.rate;
          if rateControl != 0 {
            if p.kind == VideoPacket {
              if rateControl == 1 {
                continue;
              }
              if p.now < mark || p.now - mark >= WINDOW {
                mark := p.now;
                lastSecondVideoBytes := sentVideoBytes;
              }
              var partialBitrate: u32 := (sentVideoBytes - lastSecondVideoBytes) * 8 * 10 % WORD;
              if partialBitrate > rateControl {
                continue;
              }
              sentVideoBytes := sentVideoBytes + p.length;
            }
          }
          videoTransport := videoTransport + [p];
        } else {
          audioTransport := audioTransport + [p];
        }
      }
      assert ps[..|ps|] == ps;
    }
  }

  lemma LoopNothing(l: Link, bundle: bool)
    ensures Loop(l, bundle, []) == l
  {
  }

  lemma LoopOneMore(l: Link, bundle: bool, ps: seq<DataPacket>, i: nat)
    requires i < |ps|
    ensures Loop(l, bundle, ps[..i + 1]) == LoopStep(Loop(l, bundle, ps[..i]), bundle, ps[i])
  {
    assert ps[..i + 1][..i] == ps[..i];
  }
}
