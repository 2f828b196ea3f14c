// RtcpData: the bandwidth that is reported upstream is the minimum of the received
// REMB values, each aged by the periodic resets since.
module BandwidthReport {
  import opened Bytes
  import opened Integers

  // A bandwidth of 0 stands for "none received yet"; received bit rates have 64 bits.
  datatype Event = Received(bitrate: u64) | Reset(bandwidth: u32)

  // A reset doubles a value below the cap, up to the cap.
  function Age(r: nat, bandwidth: nat): (a: nat)
    ensures a >= r && (r > 0 ==> a > 0)
  {
    if r < bandwidth then (if r * 2 < bandwidth then r * 2 else bandwidth) else r
  }

  function Step(reported: nat, e: Event): nat {
    match e
    case Received(bitrate) => if bitrate < reported || reported == 0 then bitrate else reported
    case Reset(bandwidth) => Age(reported, bandwidth)
  }

  // The reported bandwidth after a run.
  function Reported(events: seq<Event>): nat {
    if events == [] then 0 else Step(Reported(events[..|events| - 1]), events[|events| - 1])
  }

  // A value after all the resets among some later events.
  function AgedOver(r: nat, later: seq<Event>): nat {
    if later == [] then r
    else
      var a, e := AgedOver(r, later[..|later| - 1]), later[|later| - 1];
      if e.Reset? then Age(a, e.bandwidth) else a
  }

  // Event i is a REMB that still counts at the end of the run: its rate is positive,
  // and no later REMB of rate zero has made the receiver forget.
  ghost predicate Counts(events: seq<Event>, i: nat)
    requires i < |events|
  {
    events[i].Received? && forall j :: i <= j < |events| && events[j].Received? ==> events[j].bitrate > 0
  }

  function Contribution(events: seq<Event>, i: nat): nat
    requires i < |events| && events[i].Received?
  {
    AgedOver(events[i].bitrate, events[i + 1..])
  }

  ghost predicate IsMinimum(m: nat, events: seq<Event>) {
    && (forall i :: 0 <= i < |events| && Counts(events, i) ==> 0 < m <= Contribution(events, i))
    && (m > 0 ==> exists i :: 0 <= i < |events| && Counts(events, i) && m == Contribution(events, i))
  }

  // The closed form: over any run the reported bandwidth is the minimum of what every
  // REMB that counts has aged to, and 0 if none counts.
  lemma {:induction false} ReportedIsMinimum(events: seq<Event>)
    ensures IsMinimum(Reported(events), events)
  {
    if events != [] {
      var n := |events| - 1;
      ReportedIsMinimum(events[..n]);
      match events[n] {
        case Received(bitrate) => AfterRemb(Reported(events[..n]), events);
        case Reset(bandwidth) => AfterReset(Reported(events[..n]), events);
      }
    }
  }

  lemma OneMoreEvent(events: seq<Event>, i: nat)
    requires i + 1 < |events| && events[i].Received?
    ensures var n := |events| - 1;
      && (Counts(events, i) <==> Counts(events[..n], i) && (events[n].Received? ==> events[n].bitrate > 0))
      && Contribution(events, i) == (if events[n].Reset? then Age(Contribution(events[..n], i), events[n].bandwidth) else Contribution(events[..n], i))
  {
    var n := |events| - 1;
    assert events[i + 1..][..n - i - 1] == events[..n][i + 1..];
    assert Counts(events[..n], i) ==> forall j :: i <= j < n && events[j].Received? ==> events[..n][j].bitrate > 0;
  }

  lemma AfterRemb(m: nat, events: seq<Event>)
    requires events != [] && events[|events| - 1].Received? && IsMinimum(m, events[..|events| - 1])
    ensures IsMinimum(Step(m, events[|events| - 1]), events)
  {
    var n := |events| - 1;
    var bitrate := events[n].bitrate;
    assert Contribution(events, n) == bitrate;
    assert Counts(events, n) <==> bitrate > 0;
    forall i | 0 <= i < n && events[i].Received?
      ensures Counts(events, i) <==> Counts(events[..n], i) && bitrate > 0
      ensures Contribution(events, i) == Contribution(events[..n], i)
    {
      OneMoreEvent(events, i);
    }
  }

  lemma AfterReset(m: nat, events: seq<Event>)
    requires events != [] && events[|events| - 1].Reset? && IsMinimum(m, events[..|events| - 1])
    ensures IsMinimum(Step(m, events[|events| - 1]), events)
  {
    var n := |events| - 1;
    forall i | 0 <= i < n && events[i].Received?
      ensures Counts(events, i) <==> Counts(events[..n], i)
      ensures Contribution(events, i) == Age(Contribution(events[..n], i), events[n].bandwidth)
    {
      OneMoreEvent(events, i);
    }
  }

  function ResetsIn(events: seq<Event>): nat {
    if events == [] then 0
    else ResetsIn(events[..|events| - 1]) + (if events[|events| - 1].Reset? then 1 else 0)
  }

  function Doubled(k: nat, r: nat): nat { Pow2(k) * r }

  // With a fixed cap, aging has a closed form in the number of the resets.
  lemma {:induction false} AgedClosedForm(r: nat, later: seq<Event>, cap: nat)
    requires forall j :: 0 <= j < |later| && later[j].Reset? ==> later[j].bandwidth == cap
    ensures AgedOver(r, later) == if r >= cap then r else Minimum(Doubled(ResetsIn(later), r), cap)
  {
    DoubledOnce(0, r);
    if later != [] {
      var init := later[..|later| - 1];
      AgedClosedForm(r, init, cap);
      DoubledOnce(ResetsIn(init), r);
      hide Doubled;
    }
  }

  lemma DoubledOnce(k: nat, r: nat)
    ensures Doubled(0, r) == r && Doubled(k + 1, r) == 2 * Doubled(k, r) && Doubled(k, r) >= r
  {
    var p := Pow2(k);
    assert Pow2(k + 1) * r == 2 * (p * r);
    assert p * r >= 1 * r;
  }

  class RtcpData {
    var reportedBandwidth: u64
    var shouldSendREMB: bool

    constructor ()
      ensures reportedBandwidth == 0 && !shouldSendREMB
    {
      reportedBandwidth, shouldSendREMB := 0, false;
    }

    method Reset(bandwidth: u32)
      modifies this`reportedBandwidth
      ensures reportedBandwidth == Step(old(reportedBandwidth), Event.Reset(bandwidth))
    {
      if reportedBandwidth < bandwidth {
        reportedBandwidth := if reportedBandwidth * 2 < bandwidth then reportedBandwidth * 2 else bandwidth;
      }
    }

    // The REMB branch of analyzeFeedback.
    method OnRemb(bitrate: u64)
      modifies this
      ensures reportedBandwidth == Step(old(reportedBandwidth), Received(bitrate))
      ensures shouldSendREMB <==> old(shouldSendREMB) || old(reportedBandwidth) == 0 || bitrate < old(reportedBandwidth)
    {
      if bitrate < reportedBandwidth || reportedBandwidth == 0 {
        reportedBandwidth := bitrate;
        shouldSendREMB := true;
      }
    }
  }
}
