// The bandwidth state machine that initWebRtcConnection runs once a second: it tells
// the subscriber when the bandwidth is insufficient, tries to recover, and gives up
// after three retries.
module BandwidthMonitor {
  import opened Options

  datatype Status = Stable | Insufficient | Recovering | WontRecover

  datatype Alert = InsufficientAlert | RecoveredAlert | WontRecoverAlert

  const MIN_RECOVER_BW: real := 50000.0
  const MAX_RETRIES: nat := 3

  // lastAverage and average are undefined until a bandwidth has been reported; enabled
  // stands for minVideoBW, which is cleared for good when the monitor gives up.
  // forwarding is what setFeedbackReports was last told, and rate the limit with it.
  datatype Monitor = Monitor(enabled: bool, status: Status, values: seq<nat>, average: Option<nat>, lastAverage: Option<nat>,
                             ticks: nat, retries: nat, nextRetry: nat, ticksToTry: nat,
                             forwarding: bool, rate: real, alerts: seq<Alert>)

  datatype Thresholds = Thresholds(lower: nat, upper: nat)

  const START: Monitor := Monitor(true, Stable, [], None, None, 0, 0, 0, 0, true, 0.0, [])

  function Sum(values: seq<nat>): nat {
    if values == [] then 0 else Sum(values[..|values| - 1]) + values[|values| - 1]
  }

  function CeilDiv(a: nat, b: nat): nat
    requires b > 0
  {
    (a + b - 1) / b
  }

  method CalculateAverage(values: seq<nat>) returns (average: nat)
    requires values != []
    ensures average == CeilDiv(Sum(values), |values|)
    ensures (average - 1) * |values| < Sum(values) <= average * |values|
  {
    var tot := 0;
    for i := 0 to |values|
      invariant tot == Sum(values[..i])
    {
      assert values[..i + 1][..i] == values[..i];
      tot := tot + values[i];
    }
    assert values[..|values|] == values;
    average := CeilDiv(tot, |values|);
  }

  // ---- One tick ----------------------------------------------------------------------

  // The last five values are kept; a report may name more than one.
  function Pushed(values: seq<nat>, v: nat): seq<nat> {
    if |values| + 1 > 5 then (values + [v])[1..] else values + [v]
  }

  function Observe(m: Monitor, bandwidths: seq<nat>): Monitor {
    if bandwidths == [] then m
    else
      var o := Observe(m, bandwidths[..|bandwidths| - 1]);
      var values := Pushed(o.values, bandwidths[|bandwidths| - 1]);
      o.(values := values, average := Some(CeilDiv(Sum(values), |values|)))
  }

  // Comparisons with an undefined average are false.

  predicate Exceeds(a: Option<nat>, limit: nat) { a.Some? && a.value > limit }

  predicate Rises(a: Option<nat>, last: Option<nat>) { a.Some? && last.Some? && a.value > last.value }

  predicate Falls(a: Option<nat>, last: Option<nat>, lower: nat) { a.Some? && last.Some? && a.value <= last.value && a.value < lower }

  function ValueOf(a: Option<nat>): nat { if a.Some? then a.value else 0 }

  function ToRecover(a: Option<nat>): real {
    var quarter := ValueOf(a) as real / 4.0;
    if a.Some? && quarter < MIN_RECOVER_BW then quarter else MIN_RECOVER_BW
  }

  function Recovered(m: Monitor): Monitor {
    m.(ticks := 0, nextRetry := 0, retries := 0, status := Stable, forwarding := true, rate := 0.0, alerts := m.alerts + [RecoveredAlert])
  }

  function WhenStable(m: Monitor, t: Thresholds): Monitor {
    if !Falls(m.average, m.lastAverage, t.lower) then m
    else if m.ticks + 1 > 2 then
      m.(ticks := 0, status := Insufficient, forwarding := false, rate := ToRecover(m.average), alerts := m.alerts + [InsufficientAlert])
    else m.(ticks := m.ticks + 1)
  }

  function WhenInsufficient(m: Monitor, t: Thresholds): Monitor {
    if Exceeds(m.average, t.upper) then Recovered(m)
    else if m.retries >= MAX_RETRIES then m.(status := WontRecover)
    else if m.nextRetry == 0 then m.(nextRetry := m.ticks + 20)
    else if m.ticks + 1 == m.nextRetry then
      m.(ticks := m.ticks + 1, status := Recovering, ticksToTry := m.ticks + 1 + 10, forwarding := false, rate := ValueOf(m.average) as real)
    else m.(ticks := m.ticks + 1)
  }

  function WhenRecovering(m: Monitor, t: Thresholds): Monitor {
    if Exceeds(m.average, t.upper) then Recovered(m)
    else if Rises(m.average, m.lastAverage) then
      m.(ticksToTry := m.ticks + 10, forwarding := false, rate := ValueOf(m.average) as real * 1.3)
    else if m.ticks + 1 >= m.ticksToTry then
      m.(ticks := m.ticks + 1, ticksToTry := 0, nextRetry := 0, retries := m.retries + 1, status := Insufficient,
         forwarding := false, rate := ToRecover(m.average))
    else m.(ticks := m.ticks + 1)
  }

  function GiveUp(m: Monitor): Monitor {
    m.(ticks := 0, nextRetry := 0, retries := 0, average := Some(0), status := Stable, enabled := false,
       forwarding := false, rate := 1.0, alerts := m.alerts + [WontRecoverAlert])
  }

  function Decide(m: Monitor, t: Thresholds): Monitor {
    match m.status
    case Stable => WhenStable(m, t)
    case Insufficient => WhenInsufficient(m, t)
    case Recovering => WhenRecovering(m, t)
    case WontRecover => GiveUp(m)
  }

  function Tick(m: Monitor, t: Thresholds, bandwidths: seq<nat>): Monitor {
    if !m.enabled then m
    else
      var d := Decide(Observe(m, bandwidths), t);
      d.(lastAverage := d.average)
  }

  function Run(m: Monitor, t: Thresholds, reports: seq<seq<nat>>): Monitor {
    if reports == [] then m else Tick(Run(m, t, reports[..|reports| - 1]), t, reports[|reports| - 1])
  }

  lemma {:induction false} ObserveKeeps(m: Monitor, bandwidths: seq<nat>)
    ensures var o := Observe(m, bandwidths);
      && o == m.(values := o.values, average := o.average)
      && (m.average.Some? ==> o.average.Some?)
      && (|m.values| <= 5 ==> |o.values| <= 5)
  {
    if bandwidths != [] {
      ObserveKeeps(m, bandwidths[..|bandwidths| - 1]);
    }
  }

  // ---- What every run keeps ------------------------------------------------------------

  // Alerts alternate: every even one says insufficient, every odd one says recovered
  // or, at the very end, that there will be no recovery.
  ghost predicate Alternate(alerts: seq<Alert>) {
    forall i :: 0 <= i < |alerts| ==>
      && (alerts[i] == InsufficientAlert <==> i % 2 == 0)
      && (alerts[i] == WontRecoverAlert ==> i == |alerts| - 1)
  }

  // Which alert was the last one tells whether recovery is pending, and whether the
  // monitor has given up.
  ghost predicate AlertsFit(alerts: seq<Alert>, pending: bool, enabled: bool) {
    && Alternate(alerts)
    && (pending <==> |alerts| % 2 == 1)
    && (!enabled <==> alerts != [] && alerts[|alerts| - 1] == WontRecoverAlert)
  }

  lemma AlertsGrow(alerts: seq<Alert>, pending: bool, a: Alert)
    requires AlertsFit(alerts, pending, true) && (a == InsufficientAlert <==> !pending)
    ensures AlertsFit(alerts + [a], !pending, a != WontRecoverAlert)
  {
  }

  ghost predicate Good(m: Monitor) {
    && AlertsFit(m.alerts, m.status != Stable, m.enabled)
    && (m.forwarding <==> m.status == Stable && m.enabled)
    && (m.status != Stable ==> m.enabled && m.average.Some?)
    && |m.values| <= 5
    && GoodCounts(m)
  }

  // The counters of each state; there are never more than three retries.
  ghost predicate GoodCounts(m: Monitor) {
    match m.status
    case Stable => m.retries == 0 && m.nextRetry == 0 && m.ticks <= 2
    case Insufficient => m.retries <= MAX_RETRIES && (m.nextRetry != 0 ==> m.retries < MAX_RETRIES && m.ticks < m.nextRetry <= m.ticks + 20)
    case Recovering => m.retries < MAX_RETRIES && m.ticks < m.ticksToTry <= m.ticks + 10
    case WontRecover => m.retries == MAX_RETRIES
  }

  lemma DecideKeepsGood(m: Monitor, t: Thresholds)
    requires Good(m) && m.enabled
    ensures Good(Decide(m, t)) && |Decide(m, t).values| == |m.values|
  {
    hide AlertsFit, ToRecover, Falls, Exceeds, Rises, ValueOf;
    match m.status {
      case Stable =>
        AlertsGrow(m.alerts, false, InsufficientAlert);
        assert Good(WhenStable(m, t)) by { FallsIsDefined(m.average, m.lastAverage, t.lower); }
      case Insufficient =>
        AlertsGrow(m.alerts, true, RecoveredAlert);
        assert Good(WhenInsufficient(m, t));
      case Recovering =>
        AlertsGrow(m.alerts, true, RecoveredAlert);
        assert Good(WhenRecovering(m, t));
      case WontRecover =>
        AlertsGrow(m.alerts, true, WontRecoverAlert);
        assert Good(GiveUp(m));
    }
  }

  lemma FallsIsDefined(a: Option<nat>, last: Option<nat>, lower: nat)
    ensures Falls(a, last, lower) ==> a.Some?
  {
  }

  lemma ObserveKeepsGood(m: Monitor, bandwidths: seq<nat>)
    requires Good(m)
    ensures Good(Observe(m, bandwidths))
  {
    ObserveKeeps(m, bandwidths);
    hide Observe, AlertsFit;
  }

  lemma TickKeepsGood(m: Monitor, t: Thresholds, bandwidths: seq<nat>)
    requires Good(m)
    ensures Good(Tick(m, t, bandwidths))
  {
    if m.enabled {
      ObserveKeepsGood(m, bandwidths);
      ObserveKeeps(m, bandwidths);
      hide Observe, Decide, AlertsFit;
      DecideKeepsGood(Observe(m, bandwidths), t);
    }
  }

  // Over any run, whatever is reported: alerts alternate, there are at most three
  // retries, feedback is forwarded exactly in the stable state until the monitor
  // gives up, and nothing happens afterwards.
  lemma {:induction false} RunKeepsGood(t: Thresholds, reports: seq<seq<nat>>)
    ensures Good(Run(START, t, reports))
  {
    if reports != [] {
      RunKeepsGood(t, reports[..|reports| - 1]);
      TickKeepsGood(Run(START, t, reports[..|reports| - 1]), t, reports[|reports| - 1]);
    }
  }

  lemma {:induction false} GivenUpForGood(m: Monitor, t: Thresholds, reports: seq<seq<nat>>)
    requires !m.enabled
    ensures Run(m, t, reports) == m
  {
    if reports != [] {
      GivenUpForGood(m, t, reports[..|reports| - 1]);
    }
  }

  // ---- The countdown to giving up ----------------------------------------------------------

  ghost predicate Pending(m: Monitor) { Good(m) && m.status != Stable }

  // An insufficient state that has just been entered from the stable one.
  ghost predicate Entered(m: Monitor) { Good(m) && m.status == Insufficient && m.ticks == 0 && m.retries == 0 && m.nextRetry == 0 }

  lemma InsufficientIsEntered(m: Monitor, t: Thresholds, bandwidths: seq<nat>)
    requires Good(m) && m.status == Stable && Tick(m, t, bandwidths).status != Stable
    ensures Entered(Tick(m, t, bandwidths)) && Tick(m, t, bandwidths).alerts == m.alerts + [InsufficientAlert]
  {
    hide Observe, AlertsFit, ToRecover;
    ObserveKeeps(m, bandwidths);
    TickKeepsGood(m, t, bandwidths);
  }

  // The least number of ticks until the monitor gives up: a retry takes 21 ticks of
  // waiting and 10 of trying, and giving up takes two.
  function Remaining(m: Monitor): int {
    match m.status
    case Stable => 0
    case Insufficient =>
      if m.retries >= MAX_RETRIES then 2
      else 2 + 31 * (MAX_RETRIES - 1 - m.retries) + 10 + (if m.nextRetry == 0 then 21 else m.nextRetry - m.ticks)
    case Recovering => 2 + 31 * (MAX_RETRIES - 1 - m.retries) + (m.ticksToTry - m.ticks)
    case WontRecover => 1
  }

  // A tick that finds the monitor trying to recover and sees a higher average.
  predicate Improves(m: Monitor, bandwidths: seq<nat>) { m.status == Recovering && Rises(Observe(m, bandwidths).average, m.lastAverage) }

  lemma TickCountsDown(m: Monitor, t: Thresholds, bandwidths: seq<nat>)
    requires Pending(m)
    ensures var n := Tick(m, t, bandwidths);
      && (m.status == WontRecover <==> !n.enabled)
      && (!n.enabled ==> n.alerts == m.alerts + [WontRecoverAlert])
      && (Pending(n) ==> Remaining(n) >= Remaining(m) - 1 && (Remaining(n) == Remaining(m) - 1 <==> !Improves(m, bandwidths)))
      && (n.enabled && !Pending(n) ==> Exceeds(Observe(m, bandwidths).average, t.upper))
  {
    hide Observe, AlertsFit, ToRecover;
    ObserveKeeps(m, bandwidths);
    TickKeepsGood(m, t, bandwidths);
  }

  // No recovery in between.
  ghost predicate StaysPending(m: Monitor, t: Thresholds, reports: seq<seq<nat>>) {
    forall k :: 0 <= k <= |reports| ==> Pending(Run(m, t, reports[..k]))
  }

  ghost predicate NeverImproves(m: Monitor, t: Thresholds, reports: seq<seq<nat>>) {
    forall k :: 0 <= k < |reports| ==> !Improves(Run(m, t, reports[..k]), reports[k])
  }

  lemma {:induction false} CountsDown(m: Monitor, t: Thresholds, reports: seq<seq<nat>>)
    requires StaysPending(m, t, reports)
    ensures var n := Run(m, t, reports);
      && Pending(n) && Remaining(n) >= Remaining(m) - |reports|
      && (Remaining(n) == Remaining(m) - |reports| <==> NeverImproves(m, t, reports))
  {
    hide Good, Remaining, Improves, Tick;
    assert reports[..|reports|] == reports;
    if reports != [] {
      var init, k := reports[..|reports| - 1], |reports| - 1;
      assert forall j :: 0 <= j <= k ==> init[..j] == reports[..j];
      CountsDown(m, t, init);
      TickCountsDown(Run(m, t, init), t, reports[k]);
      assert NeverImproves(m, t, reports) <==> NeverImproves(m, t, init) && !Improves(Run(m, t, init), reports[k]);
    }
  }

  // Whatever is reported, the monitor gives up no sooner than 95 ticks after it found
  // the bandwidth insufficient, and after exactly 95 if and only if the average never
  // rose while it tried to recover.
  lemma GivesUpAfter95(m: Monitor, t: Thresholds, reports: seq<seq<nat>>)
    requires Entered(m) && reports != [] && StaysPending(m, t, reports[..|reports| - 1]) && !Run(m, t, reports).enabled
    ensures Run(m, t, reports).alerts == Run(m, t, reports[..|reports| - 1]).alerts + [WontRecoverAlert]
    ensures |reports| >= 95 && (|reports| == 95 <==> NeverImproves(m, t, reports[..|reports| - 1]))
  {
    var init := reports[..|reports| - 1];
    CountsDown(m, t, init);
    TickCountsDown(Run(m, t, init), t, reports[|reports| - 1]);
    hide Good, Improves, Tick;
  }

  // The average neither rises nor exceeds the upper threshold.
  ghost predicate Quiet(m: Monitor, t: Thresholds, bandwidths: seq<nat>) {
    var o := Observe(m, bandwidths);
    !Rises(o.average, o.lastAverage) && !Exceeds(o.average, t.upper)
  }

  ghost predicate AllQuiet(m: Monitor, t: Thresholds, reports: seq<seq<nat>>) {
    forall k :: 0 <= k < |reports| ==> Quiet(Run(m, t, reports[..k]), t, reports[k])
  }

  lemma {:induction false} QuietStaysPending(m: Monitor, t: Thresholds, reports: seq<seq<nat>>)
    requires Entered(m) && |reports| <= 94 && AllQuiet(m, t, reports)
    ensures Pending(Run(m, t, reports)) && Remaining(Run(m, t, reports)) == 95 - |reports|
  {
    hide Tick, Improves, AlertsFit;
    if reports != [] {
      var init, k := reports[..|reports| - 1], |reports| - 1;
      assert forall j :: 0 <= j <= k ==> init[..j] == reports[..j];
      QuietStaysPending(m, t, init);
      hide Good;
      var n := Run(m, t, init);
      assert Quiet(n, t, reports[k]);
      QuietTick(n, t, reports[k]);
    }
  }

  lemma QuietTick(m: Monitor, t: Thresholds, bandwidths: seq<nat>)
    requires Pending(m) && Remaining(m) > 1 && Quiet(m, t, bandwidths)
    ensures Pending(Tick(m, t, bandwidths)) && Remaining(Tick(m, t, bandwidths)) == Remaining(m) - 1
  {
    TickCountsDown(m, t, bandwidths);
    TickKeepsGood(m, t, bandwidths);
    ObserveKeeps(m, bandwidths);
    hide Observe, Tick, AlertsFit;
  }

  // If it never does either, the monitor gives up at the 95th tick.
  lemma QuietGivesUpAt95(m: Monitor, t: Thresholds, reports: seq<seq<nat>>)
    requires Entered(m) && |reports| == 95 && AllQuiet(m, t, reports[..94])
    ensures !Run(m, t, reports).enabled && Run(m, t, reports[..94]).enabled
  {
    QuietStaysPending(m, t, reports[..94]);
    TickCountsDown(Run(m, t, reports[..94]), t, reports[94]);
    hide Tick, Observe;
  }

  // ---- What is observed ----------------------------------------------------------------------

  function LastFive(values: seq<nat>): seq<nat> { if |values| > 5 then values[|values| - 5..] else values }

  // After a report the last five of all values are kept, and the average is their mean,
  // rounded up; an empty report changes neither.
  lemma {:induction false} ObservesLastFive(m: Monitor, bandwidths: seq<nat>)
    requires |m.values| <= 5
    ensures var o := Observe(m, bandwidths);
      && o.values == LastFive(m.values + bandwidths)
      && (bandwidths == [] ==> o.average == m.average)
      && (bandwidths != [] ==> o.average.Some? && (o.average.value - 1) * |o.values| < Sum(o.values) <= o.average.value * |o.values|)
  {
    hide Sum, CeilDiv, Pushed, LastFive;
    if bandwidths == [] {
      assert m.values + [] == m.values;
      FiveAtMost(m.values);
    } else {
      var init, v := bandwidths[..|bandwidths| - 1], bandwidths[|bandwidths| - 1];
      ObservesLastFive(m, init);
      assert m.values + bandwidths == m.values + init + [v];
      PushedLastFive(m.values + init, v);
      Ceiling(Sum(LastFive(m.values + init + [v])), |LastFive(m.values + init + [v])|);
    }
  }

  lemma FiveAtMost(values: seq<nat>)
    requires |values| <= 5
    ensures LastFive(values) == values
  {
  }

  lemma PushedLastFive(values: seq<nat>, v: nat)
    ensures Pushed(LastFive(values), v) == LastFive(values + [v]) && LastFive(values + [v]) != []
  {
  }

  lemma Ceiling(a: nat, b: nat)
    requires b > 0
    ensures (CeilDiv(a, b) - 1) * b < a <= CeilDiv(a, b) * b
  {
  }

  function AllValues(reports: seq<seq<nat>>): seq<nat> {
    if reports == [] then [] else AllValues(reports[..|reports| - 1]) + reports[|reports| - 1]
  }

  lemma LastFiveOfMore(values: seq<nat>, more: seq<nat>)
    ensures LastFive(LastFive(values) + more) == LastFive(values + more)
  {
  }

  // Until the monitor gives up it holds the last five of all values that were reported,
  // and compares with the average of the tick before.
  lemma {:induction false} RunObserves(t: Thresholds, reports: seq<seq<nat>>)
    requires Run(START, t, reports).enabled
    ensures var m := Run(START, t, reports); m.values == LastFive(AllValues(reports)) && m.lastAverage == m.average
  {
    if reports != [] {
      var init, r := reports[..|reports| - 1], reports[|reports| - 1];
      RunObserves(t, init);
      RunKeepsGood(t, init);
      var m := Run(START, t, init);
      assert Good(m);
      ObservesLastFive(m, r);
      LastFiveOfMore(AllValues(init), r);
      DecideKeepsValues(Observe(m, r), t);
      hide Observe, Decide, LastFive, Good;
    }
  }

  lemma DecideKeepsValues(m: Monitor, t: Thresholds)
    ensures Decide(m, t).values == m.values
  {
    hide ToRecover, Falls, Exceeds, Rises, ValueOf;
  }

  // ---- What a tick does, exactly ---------------------------------------------------------------

  // While recovery is pending, a tick recovers exactly if the average exceeds the upper
  // threshold, and it is not already settled that there is no recovery.
  lemma TickRecoversExactly(m: Monitor, t: Thresholds, bandwidths: seq<nat>)
    requires Pending(m)
    ensures var n, a := Tick(m, t, bandwidths), Observe(m, bandwidths).average;
      && (n.enabled && n.status == Stable <==> m.status != WontRecover && a.Some? && a.value > t.upper)
      && (n.enabled && n.status == Stable ==> n.forwarding && n.rate == 0.0 && n.ticks == 0 && n.alerts == m.alerts + [RecoveredAlert])
      && (n.status != Stable ==> n.alerts == m.alerts)
  {
    hide Observe, AlertsFit, ToRecover;
    ObserveKeeps(m, bandwidths);
  }

  // The average is low: below the lower threshold, and not above that of the tick before.
  predicate Low(m: Monitor, t: Thresholds, bandwidths: seq<nat>) {
    var a := Observe(m, bandwidths).average;
    a.Some? && m.lastAverage.Some? && a.value < t.lower && a.value <= m.lastAverage.value
  }

  // In the stable state a tick counts a low average, and the third one leaves the state.
  lemma StableTick(m: Monitor, t: Thresholds, bandwidths: seq<nat>)
    requires Good(m) && m.status == Stable && m.enabled
    ensures var n := Tick(m, t, bandwidths);
      if !Low(m, t, bandwidths) then n.status == Stable && n.enabled && n.ticks == m.ticks && n.alerts == m.alerts
      else if m.ticks < 2 then n.status == Stable && n.enabled && n.ticks == m.ticks + 1 && n.alerts == m.alerts
      else Entered(n) && n.alerts == m.alerts + [InsufficientAlert] && !n.forwarding
  {
    hide Observe, AlertsFit, ToRecover;
    ObserveKeeps(m, bandwidths);
    TickKeepsGood(m, t, bandwidths);
  }

  function LowTicks(m: Monitor, t: Thresholds, reports: seq<seq<nat>>): nat {
    if reports == [] then 0
    else
      var init, r := reports[..|reports| - 1], reports[|reports| - 1];
      LowTicks(m, t, init) + (if Low(Run(m, t, init), t, r) then 1 else 0)
  }

  // From a stable state, the monitor stays stable for as long as there have been at most
  // two low ticks, and the third one makes the bandwidth insufficient.
  lemma {:induction false} InsufficientAtThirdLow(m: Monitor, t: Thresholds, reports: seq<seq<nat>>)
    requires Good(m) && m.status == Stable && m.enabled && m.ticks == 0
    ensures var n := Run(m, t, reports);
      LowTicks(m, t, reports) <= 2 ==>
        && Good(n) && n.status == Stable && n.enabled && n.ticks == LowTicks(m, t, reports) && n.alerts == m.alerts
    ensures reports != [] && LowTicks(m, t, reports) == 3 && LowTicks(m, t, reports[..|reports| - 1]) == 2 ==>
      Entered(Run(m, t, reports)) && Run(m, t, reports).alerts == m.alerts + [InsufficientAlert]
  {
    hide Good, Tick, Low, Entered;
    if reports != [] {
      var init, r := reports[..|reports| - 1], reports[|reports| - 1];
      InsufficientAtThirdLow(m, t, init);
      if LowTicks(m, t, init) <= 2 {
        StableTick(Run(m, t, init), t, r);
        TickKeepsGood(Run(m, t, init), t, r);
      }
    }
  }

  // The limit that goes with the feedback: a quarter of the average, but at most 50000,
  // while it waits; the average when it begins to try, and 1.3 times the average whenever
  // that has risen; 1, which stops all video, once it has given up.
  lemma TickSetsRate(m: Monitor, t: Thresholds, bandwidths: seq<nat>)
    requires Good(m) && m.enabled
    ensures var n, a := Tick(m, t, bandwidths), ValueOf(Observe(m, bandwidths).average) as real;
      && (n.status == Insufficient && m.status != Insufficient ==> n.rate <= 50000.0 && 4.0 * n.rate <= a && (n.rate == 50000.0 || 4.0 * n.rate == a))
      && (n.status == Recovering && m.status == Insufficient ==> n.rate == a)
      && (n.status == Recovering && m.status == Recovering ==> n.rate == if Improves(m, bandwidths) then 1.3 * a else m.rate)
      && (n.status == m.status && n.enabled && m.status != Recovering ==> n.rate == m.rate)
      && (n.status == WontRecover ==> n.rate == m.rate)
      && (!n.enabled ==> n.rate == 1.0)
  {
    hide Observe, AlertsFit;
    ObserveKeeps(m, bandwidths);
  }

  // ---- The interval callback ----------------------------------------------------------------

  class BandwidthReporter {
    var enabled: bool
    var status: Status
    var values: seq<nat>
    var average: Option<nat>
    var lastAverage: Option<nat>
    var ticks: nat
    var retries: nat
    var nextRetry: nat
    var ticksToTry: nat
    var forwarding: bool
    var rate: real
    var alerts: seq<Alert>

    ghost function State(): Monitor
      reads this
    {
      Monitor(enabled, status, values, average, lastAverage, ticks, retries, nextRetry, ticksToTry, forwarding, rate, alerts)
    }

    constructor ()
      ensures State() == START && Good(State())
    {
      enabled, status, values, average, lastAverage := true, Stable, [], None, None;
      ticks, retries, nextRetry, ticksToTry := 0, 0, 0, 0;
      forwarding, rate, alerts := true, 0.0, [];
    }

    method SetFeedbackReports(send: bool, limit: real)
      modifies this`forwarding, this`rate
      ensures forwarding == send && rate == limit
    {
      forwarding, rate := send, limit;
    }

    method PushValues(bandwidths: seq<nat>)
      requires |values| <= 5
      modifies this`values, this`average
      ensures State() == Observe(old(State()), bandwidths)
    {
      ghost var start := State();
      assert bandwidths[..|bandwidths|] == bandwidths;
      for i := 0 to |bandwidths|
        invariant |values| <= 5 && State() == Observe(start, bandwidths[..i])
      {
        assert bandwidths[..i + 1][..i] == bandwidths[..i];
        values := values + [bandwidths[i]];
        if |values| > 5 {
          values := values[1..];
        }
        var a := CalculateAverage(values);
        average := Some(a);
      }
    }

    method Recover()
      modifies this
      ensures State() == Recovered(old(State()))
    {
      ticks, nextRetry, retries, status := 0, 0, 0, Stable;
      SetFeedbackReports(true, 0.0);
      alerts := alerts + [RecoveredAlert];
    }

    method OnStable(t: Thresholds)
      modifies this
      ensures State() == WhenStable(old(State()), t)
    {
      hide ToRecover;
      if Falls(average, lastAverage, t.lower) {
        ticks := ticks + 1;
        if ticks > 2 {
          status := Insufficient;
          SetFeedbackReports(false, ToRecover(average));
          ticks := 0;
          alerts := alerts + [InsufficientAlert];
        }
      }
    }

    method OnInsufficient(t: Thresholds)
      modifies this
      ensures State() == WhenInsufficient(old(State()), t)
    {
      if Exceeds(average, t.upper) {
        Recover();
      } else if retries >= MAX_RETRIES {
        status := WontRecover;
      } else if nextRetry == 0 {
        nextRetry := ticks + 20;
      } else {
        ticks := ticks + 1;
        if ticks == nextRetry {
          status := Recovering;
          ticksToTry := ticks + 10;
          SetFeedbackReports(false, ValueOf(average) as real);
        }
      }
    }

    method OnRecovering(t: Thresholds)
      modifies this
      ensures State() == WhenRecovering(old(State()), t)
    {
      hide ToRecover;
      if Exceeds(average, t.upper) {
        Recover();
      } else if Rises(average, lastAverage) {
        SetFeedbackReports(false, ValueOf(average) as real * 1.3);
        ticksToTry := ticks + 10;
      } else {
        ticks := ticks + 1;
        if ticks >= ticksToTry {
          ticksToTry, nextRetry := 0, 0;
          retries := retries + 1;
          status := Insufficient;
          SetFeedbackReports(false, ToRecover(average));
        }
      }
    }

    method OnWontRecover()
      modifies this
      ensures State() == GiveUp(old(State()))
    {
      ticks, nextRetry, retries := 0, 0, 0;
      average := Some(0);
      status, enabled := Stable, false;
      SetFeedbackReports(false, 1.0);
      alerts := alerts + [WontRecoverAlert];
    }

    method OnInterval(bandwidths: seq<nat>, t: Thresholds)
      requires Good(State())
      modifies this
      ensures State() == Tick(old(State()), t, bandwidths) && Good(State())
    {
      TickKeepsGood(State(), t, bandwidths);
      hide Observe, Good, WhenStable, WhenInsufficient, WhenRecovering, GiveUp;
      assert |values| <= 5 by { ValuesBounded(State()); }
      if !enabled {
        return;
      }
      PushValues(bandwidths);
      match status {
        case Stable => OnStable(t);
        case Insufficient => OnInsufficient(t);
        case Recovering => OnRecovering(t);
        case WontRecover => OnWontRecover();
      }
      lastAverage := average;
    }
  }

  lemma ValuesBounded(m: Monitor)
    requires Good(m)
    ensures |m.values| <= 5
  {
  }
}
