/** What every run of the congestion controller keeps. */
module CongestionProofs {
  import opened Numbers
  import opened Congestion

  // ---------------------------------------------------------------- histories

  function TimeOf(e: Event): real {
    e.now
  }

  /** Event times start no earlier than `start` and never decrease. */
  ghost predicate InOrder(start: real, es: seq<Event>) {
    && (forall i :: 0 <= i < |es| ==> start <= TimeOf(es[i]))
    && (forall i, j :: 0 <= i < j < |es| ==> TimeOf(es[i]) <= TimeOf(es[j]))
  }

  datatype RttSample = RttSample(rtt: nonneg, time: real)

  /** Every round-trip sample the controller was given. */
  function RttHistory(es: seq<Event>): seq<RttSample> {
    if es == [] then []
    else
      var h := RttHistory(es[..|es| - 1]);
      match es[|es| - 1]
      case Acked(_, rtt, now) => h + [RttSample(rtt, now)]
      case _ => h
  }

  /** Every delivery-rate sample the controller was given. */
  function BwHistory(es: seq<Event>): seq<Sample> {
    if es == [] then []
    else
      var h := BwHistory(es[..|es| - 1]);
      match es[|es| - 1]
      case Acked(bytes, rtt, now) => h + [Sample(Div(Fin(bytes as real), Fin(rtt)), now)]
      case _ => h
  }

  function AckCount(es: seq<Event>): nat {
    if es == [] then 0 else AckCount(es[..|es| - 1]) + if es[|es| - 1].Acked? then 1 else 0
  }

  lemma InOrderPrefix(start: real, es: seq<Event>)
    requires InOrder(start, es) && es != []
    ensures InOrder(start, es[..|es| - 1])
  {
  }

  // ---------------------------------------------------------------- bandwidth filter

  ghost predicate Chronological(h: seq<Sample>) {
    forall i, j :: 0 <= i < j < |h| ==> h[i].time <= h[j].time
  }

  function RunFilter(h: seq<Sample>, len: real): Filter {
    if h == [] then EMPTY_FILTER
    else UpdateFilter(RunFilter(h[..|h| - 1], len), h[|h| - 1].bw, h[|h| - 1].time, len)
  }

  /** `m` is the maximum, with floor 0 and ignoring NaN, over all samples of the whole
      history that are not older than `cutoff`. */
  ghost predicate IsWindowMax(m: Float, h: seq<Sample>, cutoff: real) {
    && m != NaN && Le(Fin(0.0), m)
    && (forall i :: 0 <= i < |h| && h[i].time >= cutoff && h[i].bw != NaN ==> Le(h[i].bw, m))
    && (m == Fin(0.0) || exists i :: 0 <= i < |h| && h[i].time >= cutoff && h[i].bw == m)
  }

  lemma WindowMaxUnique(m1: Float, m2: Float, h: seq<Sample>, cutoff: real)
    requires IsWindowMax(m1, h, cutoff) && IsWindowMax(m2, h, cutoff)
    ensures m1 == m2
  {
    if m1 != Fin(0.0) { var i :| 0 <= i < |h| && h[i].time >= cutoff && h[i].bw == m1; }
    if m2 != Fin(0.0) { var i :| 0 <= i < |h| && h[i].time >= cutoff && h[i].bw == m2; }
  }

  lemma {:induction false} DropOldShape(s: seq<Sample>, cutoff: real) returns (k: nat)
    ensures k <= |s| && DropOld(s, cutoff) == s[k..]
    ensures forall i :: 0 <= i < k ==> s[i].time < cutoff
    ensures k < |s| ==> s[k].time >= cutoff
  {
    if s != [] && s[0].time < cutoff {
      var j := DropOldShape(s[1..], cutoff);
      k := j + 1;
      assert forall i :: 0 < i < k ==> s[i] == s[1..][i - 1];
    } else {
      k := 0;
    }
  }

  lemma {:induction false} MaxOfIsMax(s: seq<Sample>)
    ensures MaxOf(s) != NaN && Le(Fin(0.0), MaxOf(s))
    ensures forall i :: 0 <= i < |s| && s[i].bw != NaN ==> Le(s[i].bw, MaxOf(s))
    ensures MaxOf(s) == Fin(0.0) || exists i :: 0 <= i < |s| && s[i].bw == MaxOf(s)
  {
    if s != [] {
      var n := |s| - 1;
      MaxOfIsMax(s[..n]);
      var m := MaxOf(s[..n]);
      if MaxOf(s) == m && m != Fin(0.0) {
        var i :| 0 <= i < n && s[..n][i].bw == m;
        assert s[i].bw == MaxOf(s);
      }
      assert s[n].bw == MaxOf(s) || MaxOf(s) == m;
    }
  }

  lemma SliceAppend<T>(h: seq<T>, j: nat)
    requires j < |h|
    ensures h[..|h| - 1][j..] + [h[|h| - 1]] == h[j..]
  {
  }

  lemma SliceSlice<T>(h: seq<T>, j: nat, d: nat)
    requires j + d <= |h|
    ensures h[j..][d..] == h[j + d..]
  {
  }

  lemma UpdateAll(f: Filter, last: Sample, len: real, all: seq<Sample>)
    requires f.samples + [last] == all
    ensures UpdateFilter(f, last.bw, last.time, len)
         == Filter(DropOld(all, last.time - len), MaxOf(DropOld(all, last.time - len)))
  {
    hide DropOld, MaxOf;
    assert Sample(last.bw, last.time) == last;
  }

  lemma UpdateSuffix(h: seq<Sample>, len: real, j: nat)
    requires h != [] && j < |h|
    requires if |h| == 1 then j == 0 else RunFilter(h[..|h| - 1], len).samples == h[..|h| - 1][j..]
    ensures var kept := DropOld(h[j..], h[|h| - 1].time - len); RunFilter(h, len) == Filter(kept, MaxOf(kept))
  {
    hide DropOld, MaxOf, UpdateFilter;
    SliceAppend(h, j);
    UpdateAll(RunFilter(h[..|h| - 1], len), h[|h| - 1], len, h[j..]);
  }

  /** In a chronological history, once a sample is recent all later ones are. */
  lemma CutInOrder(h: seq<Sample>, j: nat, d: nat, cutoff: real)
    requires Chronological(h) && j + d <= |h|
    requires forall i :: 0 <= i < j ==> h[i].time < cutoff
    requires forall i :: 0 <= i < d ==> h[j..][i].time < cutoff
    requires j + d < |h| ==> h[j + d].time >= cutoff
    ensures forall i :: 0 <= i < j + d ==> h[i].time < cutoff
    ensures forall i :: j + d <= i < |h| ==> h[i].time >= cutoff
  {
    assert forall i :: j <= i < j + d ==> h[i] == h[j..][i - j];
  }

  lemma DropFrom(h: seq<Sample>, j: nat, cutoff: real) returns (k: nat)
    requires Chronological(h) && j <= |h|
    requires forall i :: 0 <= i < j ==> h[i].time < cutoff
    ensures k <= |h| && DropOld(h[j..], cutoff) == h[k..]
    ensures forall i :: 0 <= i < k ==> h[i].time < cutoff
    ensures forall i :: k <= i < |h| ==> h[i].time >= cutoff
  {
    hide DropOld;
    var d := DropOldShape(h[j..], cutoff);
    k := j + d;
    SliceSlice(h, j, d);
    CutInOrder(h, j, d, cutoff);
  }

  /** The samples retained are a suffix of the whole history, cut exactly at the window. */
  lemma {:induction false} RetainedSuffix(h: seq<Sample>, len: real) returns (k: nat)
    requires Chronological(h) && h != []
    ensures k <= |h| && RunFilter(h, len) == Filter(h[k..], MaxOf(h[k..]))
    ensures forall i :: 0 <= i < k ==> h[i].time < h[|h| - 1].time - len
    ensures forall i :: k <= i < |h| ==> h[i].time >= h[|h| - 1].time - len
  {
    hide DropOld, MaxOf, UpdateFilter, RunFilter;
    var init, last := h[..|h| - 1], h[|h| - 1];
    var j := 0;
    if init != [] {
      j := RetainedSuffix(init, len);
      assert forall i :: 0 <= i < j ==> h[i] == init[i];
      assert init[|init| - 1].time <= last.time;
    }
    UpdateSuffix(h, len, j);
    k := DropFrom(h, j, last.time - len);
  }

  /** The filter refines its specification: popping only from the front, it holds the
      maximum over the entire history inside the window. */
  lemma FilterIsWindowMax(h: seq<Sample>, len: real)
    requires Chronological(h) && h != []
    ensures IsWindowMax(RunFilter(h, len).maxBw, h, h[|h| - 1].time - len)
  {
    var k := RetainedSuffix(h, len);
    var kept := h[k..];
    MaxOfIsMax(kept);
    assert forall i :: k <= i < |h| ==> h[i] == kept[i - k];
    if MaxOf(kept) != Fin(0.0) {
      var i :| 0 <= i < |kept| && kept[i].bw == MaxOf(kept);
      assert h[k + i].bw == MaxOf(kept);
    }
  }

  lemma SettleFrame(s: Bbr, now: real)
    ensures Settle(s, now).filter == s.filter && Settle(s, now).minRtt == s.minRtt
    ensures Settle(s, now).minRttStamp == s.minRttStamp
    ensures Settle(s, now).packetsAcked == s.packetsAcked
    ensures MIN_CWND <= Settle(s, now).cwnd <= MAX_CWND
  {
  }

  lemma StepFilter(s: Bbr, e: Event)
    ensures Step(s, e).filter
         == if e.Acked? then UpdateFilter(s.filter, Div(Fin(e.bytes as real), Fin(e.rtt)), e.now, BW_FILTER_LEN)
             else s.filter
  {
    match e
    case Sent(now) => SettleFrame(CountSent(s), now);
    case Acked(bytes, rtt, now) => SettleFrame(UpdateModel(CountAcked(s), bytes, rtt, now), now);
    case Lost(now) => SettleFrame(s, now);
  }

  lemma {:induction false} BwHistoryInOrder(t0: real, es: seq<Event>)
    requires InOrder(t0, es)
    ensures Chronological(BwHistory(es))
    ensures forall i :: 0 <= i < |BwHistory(es)| && es != [] ==> BwHistory(es)[i].time <= es[|es| - 1].now
  {
    if es != [] {
      InOrderPrefix(t0, es);
      BwHistoryInOrder(t0, es[..|es| - 1]);
      assert |es| > 1 ==> es[|es| - 2].now <= es[|es| - 1].now;
    }
  }

  lemma {:induction false} FilterOfRun(t0: real, es: seq<Event>)
    ensures Run(Init(t0), es).filter == RunFilter(BwHistory(es), BW_FILTER_LEN)
  {
    hide Step, UpdateFilter, Div;
    if es != [] {
      var init, e := es[..|es| - 1], es[|es| - 1];
      FilterOfRun(t0, init);
      StepFilter(Run(Init(t0), init), e);
      var h := BwHistory(init);
      if e.Acked? {
        assert BwHistory(es)[..|h|] == h;
      }
    }
  }

  /** In every run the bandwidth estimate is the maximum over all delivery-rate samples of
      the two seconds before the last ACK. */
  lemma BandwidthEstimate(t0: real, es: seq<Event>)
    requires InOrder(t0, es)
    ensures var h := BwHistory(es);
      if h == [] then Run(Init(t0), es).filter.maxBw == Fin(0.0)
      else IsWindowMax(Run(Init(t0), es).filter.maxBw, h, h[|h| - 1].time - 2.0)
  {
    FilterOfRun(t0, es);
    BwHistoryInOrder(t0, es);
    if BwHistory(es) != [] {
      FilterIsWindowMax(BwHistory(es), BW_FILTER_LEN);
    }
  }

  // ---------------------------------------------------------------- minimum RTT

  /** The estimate is a real sample (or the initial second), taken at its stamp, and no
      sample since the stamp was smaller. */
  ghost predicate MinRttHonest(t0: real, s: Bbr, h: seq<RttSample>) {
    && ((s.minRtt == 1.0 && s.minRttStamp == t0)
        || exists i :: 0 <= i < |h| && h[i] == RttSample(s.minRtt, s.minRttStamp))
    && (forall i :: 0 <= i < |h| && h[i].time >= s.minRttStamp ==> h[i].rtt >= s.minRtt)
  }

  lemma StepRtt(s: Bbr, e: Event)
    ensures Step(s, e).minRtt == if e.Acked? && (e.rtt < s.minRtt || e.now - s.minRttStamp > 10.0)
        then e.rtt else s.minRtt
    ensures Step(s, e).minRttStamp
         == if e.Acked? && (e.rtt < s.minRtt || e.now - s.minRttStamp > 10.0)
             then e.now else s.minRttStamp
  {
    match e
    case Sent(now) => SettleFrame(CountSent(s), now);
    case Acked(bytes, rtt, now) => SettleFrame(UpdateModel(CountAcked(s), bytes, rtt, now), now);
    case Lost(now) => SettleFrame(s, now);
  }

  lemma HonestStep(t0: real, s: Bbr, h: seq<RttSample>, e: Event)
    requires MinRttHonest(t0, s, h) && e.Acked? && s.minRttStamp <= e.now
    requires forall i :: 0 <= i < |h| ==> h[i].time <= e.now
    requires forall i :: 0 <= i < |h| && h[i].time == e.now ==> e.now - s.minRttStamp <= MIN_RTT_FILTER_LEN
    ensures MinRttHonest(t0, Step(s, e), h + [RttSample(e.rtt, e.now)])
  {
    hide Step;
    StepRtt(s, e);
    var all := h + [RttSample(e.rtt, e.now)];
    var u := Step(s, e);
    assert all[|h|] == RttSample(e.rtt, e.now);
    if u.minRttStamp == s.minRttStamp && u.minRtt == s.minRtt && !(s.minRtt == INITIAL_RTT && s.minRttStamp == t0) {
      var i :| 0 <= i < |h| && h[i] == RttSample(s.minRtt, s.minRttStamp);
      assert all[i] == RttSample(u.minRtt, u.minRttStamp);
    }
    assert forall i :: 0 <= i < |h| ==> all[i] == h[i];
  }

  /** Min-RTT filter over the whole sample history; after any ACK the estimate was taken at
      most ten seconds ago. */
  lemma {:induction false} MinRttOfRun(t0: real, es: seq<Event>)
    requires InOrder(t0, es)
    ensures var s, h := Run(Init(t0), es), RttHistory(es);
      && MinRttHonest(t0, s, h)
      && t0 <= s.minRttStamp && (es != [] ==> s.minRttStamp <= es[|es| - 1].now)
      && (forall i :: 0 <= i < |h| ==> h[i].time - s.minRttStamp <= 10.0)
      && (forall i :: 0 <= i < |h| && es != [] ==> h[i].time <= es[|es| - 1].now)
      && (es != [] && es[|es| - 1].Acked? ==> es[|es| - 1].now - s.minRttStamp <= 10.0)
  {
    hide Step;
    if es != [] {
      var init, e := es[..|es| - 1], es[|es| - 1];
      InOrderPrefix(t0, es);
      MinRttOfRun(t0, init);
      var s, h := Run(Init(t0), init), RttHistory(init);
      StepRtt(s, e);
      assert forall i :: 0 <= i < |h| ==> h[i].time <= e.now;
      if e.Acked? {
        HonestStep(t0, s, h, e);
      }
    }
  }

  // ---------------------------------------------------------------- window and rate

  /** The window never leaves its clamp, in any run. */
  lemma {:induction false} CwndBounded(t0: real, es: seq<Event>)
    ensures 5600 <= Run(Init(t0), es).cwnd <= 1048576
    ensures es == [] ==> Run(Init(t0), es).cwnd == 14000
  {
    hide Step;
    if es != [] {
      StepCwnd(Run(Init(t0), es[..|es| - 1]), es[|es| - 1]);
    }
  }

  lemma StepCwnd(s: Bbr, e: Event)
    ensures MIN_CWND <= Step(s, e).cwnd <= MAX_CWND
  {
    match e
    case Sent(now) => SettleFrame(CountSent(s), now);
    case Acked(bytes, rtt, now) => SettleFrame(UpdateModel(CountAcked(s), bytes, rtt, now), now);
    case Lost(now) => SettleFrame(s, now);
  }

  /** Rate and window are those the current phase, cycle index and path model call for. */
  ghost predicate ControlCurrent(s: Bbr) {
    && s.pacingRate == RateFor(s.phase, s.cycleIndex, s.filter.maxBw)
    && s.cwnd == WindowFor(s.phase, s.cycleIndex, s.filter.maxBw, s.minRtt)
  }

  lemma SettleIsCurrent(s: Bbr, now: real)
    ensures ControlCurrent(Settle(s, now))
  {
  }

  /** The rate stays within a factor 2.77 of the bandwidth estimate, in every phase. */
  lemma RateNearBandwidth(phase: Phase, cycleIndex: nat, bw: Float)
    requires bw != NaN
    ensures var r := RateFor(phase, cycleIndex, bw);
      Le(Div(bw, Fin(2.77)), r) && Le(r, Mul(Fin(2.77), bw))
  {
    hide Mul, Div, Gain;
    GainTimes(STARTUP_PACING_GAIN, bw);
    GainTimes(1.0, bw);
    UnitGain(bw);
    LeTransitive(Div(bw, Fin(STARTUP_PACING_GAIN)), bw, Mul(Fin(STARTUP_PACING_GAIN), bw));
    GainInRange(cycleIndex);
    GainTimes(Gain(cycleIndex), bw);
  }

  lemma GainInRange(cycleIndex: nat)
    ensures 0.75 <= Gain(cycleIndex) <= 1.25
  {
  }

  lemma LeTransitive(x: Float, y: Float, z: Float)
    requires Le(x, y) && Le(y, z)
    ensures Le(x, z)
  {
  }

  lemma UnitGain(bw: Float)
    ensures Mul(Fin(1.0), bw) == bw
  {
  }

  lemma GainTimes(g: nonneg, bw: Float)
    requires 0.75 <= g <= 2.77 && bw != NaN
    ensures Le(Div(bw, Fin(STARTUP_PACING_GAIN)), Mul(Fin(g), bw))
    ensures Le(Mul(Fin(g), bw), Mul(Fin(STARTUP_PACING_GAIN), bw))
  {
    if bw.Fin? {
      GainTimesFinite(g, bw.value);
    }
  }

  /** The product of two non-negative numbers. */
  function Times(x: nonneg, y: nonneg): (p: nonneg) {
    ProductNonneg(x, y);
    x * y
  }

  lemma ProductIs(x: nonneg, y: nonneg)
    ensures Mul(Fin(x), Fin(y)) == Fin(Times(x, y))
  {
  }

  lemma QuotientIs(x: nonneg, y: nonneg)
    requires y > 0.0
    ensures x / y >= 0.0 && Div(Fin(x), Fin(y)) == Fin(x / y)
  {
  }

  lemma GainTimesFinite(g: nonneg, b: nonneg)
    requires 0.75 <= g <= 2.77
    ensures Le(Div(Fin(b), Fin(STARTUP_PACING_GAIN)), Mul(Fin(g), Fin(b)))
    ensures Le(Mul(Fin(g), Fin(b)), Mul(Fin(STARTUP_PACING_GAIN), Fin(b)))
  {
    hide Mul, Div, Times;
    NearBandwidth(g, b);
    ProductIs(g, b);
    ProductIs(STARTUP_PACING_GAIN, b);
    QuotientIs(b, STARTUP_PACING_GAIN);
  }

  lemma NearBandwidth(g: nonneg, b: nonneg)
    requires 0.75 <= g <= 2.77
    ensures b / 2.77 <= Times(g, b) <= Times(2.77, b)
  {
    var low, high := g - 0.75, 2.77 - g;
    ProductNonneg(low, b);
    ProductNonneg(high, b);
    Spread(0.75, low, b);
    Spread(g, high, b);
  }

  lemma Spread(x: real, y: real, b: real)
    ensures (x + y) * b == x * b + y * b
  {
  }

  /** Reference definition: every phase is one gain on the bandwidth and one gain on the
      bandwidth-delay product. */
  function PacingGain(phase: Phase, cycleIndex: nat): nonneg {
    match phase
    case Startup => 2.77
    case Drain => 1.0 / 2.77
    case ProbeBw => if cycleIndex % 8 == 0 then 1.25 else if cycleIndex % 8 == 1 then 0.75 else 1.0
    case ProbeRtt => 1.0
  }

  function WindowGain(phase: Phase, cycleIndex: nat): nonneg {
    match phase
    case Startup => 2.0
    case Drain => 1.0
    case ProbeBw => PacingGain(ProbeBw, cycleIndex)
    case ProbeRtt => 0.5
  }

  /** `window` is `target` rounded down to whole bytes and clamped. */
  ghost predicate IsClampedWindow(window: nat, target: real) {
    && (target < 5600.0 ==> window == 5600)
    && (target >= 1048576.0 ==> window == 1048576)
    && (5600.0 <= target < 1048576.0 ==> window as real <= target < window as real + 1.0)
  }

  lemma ClampedFloor(x: nonneg)
    ensures IsClampedWindow(Clamp(ToUsize(Fin(x))), x)
  {
  }

  lemma GainTable(cycleIndex: nat)
    ensures Gain(cycleIndex) == PacingGain(ProbeBw, cycleIndex)
  {
  }

  lemma Regroup(g: real, bw: real, rtt: real, rate: real, bdp: real)
    requires rate == g * bw && bdp == bw * rtt
    ensures rate * rtt == g * bdp
  {
  }

  lemma TimesRegroups(g: nonneg, bw: nonneg, rtt: nonneg)
    ensures Times(Times(g, bw), rtt) == Times(g, Times(bw, rtt))
  {
    Regroup(g, bw, rtt, Times(g, bw), Times(bw, rtt));
  }

  /** Scaling the rate and scaling the bandwidth-delay product give the same window. */
  lemma GainWindow(g: nonneg, bw: nonneg, rtt: nonneg)
    ensures IsClampedWindow(Clamp(ToUsize(Mul(Mul(Fin(g), Fin(bw)), Fin(rtt)))), Times(g, Times(bw, rtt)))
    ensures IsClampedWindow(Clamp(ToUsize(Mul(Fin(g), Mul(Fin(bw), Fin(rtt))))), Times(g, Times(bw, rtt)))
  {
    hide Mul, ToUsize, Clamp, IsClampedWindow, Times;
    ProductIs(bw, rtt);
    ProductIs(g, Times(bw, rtt));
    ProductIs(g, bw);
    ProductIs(Times(g, bw), rtt);
    TimesRegroups(g, bw, rtt);
    ClampedFloor(Times(g, Times(bw, rtt)));
  }

  lemma UnitWindow(bw: nonneg, rtt: nonneg)
    ensures IsClampedWindow(Clamp(ToUsize(Mul(Fin(bw), Fin(rtt)))), Times(1.0, Times(bw, rtt)))
  {
    hide Mul, ToUsize, Clamp, IsClampedWindow;
    ProductIs(bw, rtt);
    ClampedFloor(Times(bw, rtt));
  }

  lemma RateIsGain(phase: Phase, cycleIndex: nat, bw: nonneg)
    ensures RateFor(phase, cycleIndex, Fin(bw)) == Fin(Times(PacingGain(phase, cycleIndex), bw))
  {
    hide Mul, Div, Gain;
    match phase
    case Startup => ProductIs(STARTUP_PACING_GAIN, bw);
    case Drain => DrainRate(bw);
    case ProbeBw =>
      GainTable(cycleIndex);
      ProductIs(Gain(cycleIndex), bw);
    case ProbeRtt =>
  }

  lemma WindowIsGain(phase: Phase, cycleIndex: nat, bw: nonneg, rtt: nonneg)
    ensures IsClampedWindow(WindowFor(phase, cycleIndex, Fin(bw), rtt),
                            Times(WindowGain(phase, cycleIndex), Times(bw, rtt)))
  {
    hide Mul, ToUsize, Clamp, IsClampedWindow, Gain, PacingGain, Times;
    match phase
    case Startup => GainWindow(STARTUP_CWND_GAIN, bw, rtt);
    case Drain => UnitWindow(bw, rtt);
    case ProbeBw =>
      GainTable(cycleIndex);
      GainWindow(Gain(cycleIndex), bw, rtt);
    case ProbeRtt => GainWindow(PROBE_RTT_CWND_GAIN, bw, rtt);
  }

  /** What an infinite estimate, and a NaN, would do in each phase: the product of infinity
      and a zero round trip is not a number, and not a number as an integer is 0. */
  lemma SpecialControl(phase: Phase, cycleIndex: nat, rtt: nonneg)
    ensures RateFor(phase, cycleIndex, Inf) == Inf
    ensures WindowFor(phase, cycleIndex, Inf, rtt) == if rtt == 0.0 then MIN_CWND else MAX_CWND
    ensures RateFor(phase, cycleIndex, NaN) == NaN && WindowFor(phase, cycleIndex, NaN, rtt) == MIN_CWND
  {
    GainInRange(cycleIndex);
  }

  /** For every bandwidth estimate: when it is finite, the rate is the phase's gain times the
      bandwidth and the window the phase's gain times the bandwidth-delay product, clamped;
      when it is infinite, the rate is infinite and the window at one end of its clamp. */
  lemma ControlIsGain(phase: Phase, cycleIndex: nat, bw: Float, rtt: nonneg)
    ensures var rate, window := RateFor(phase, cycleIndex, bw), WindowFor(phase, cycleIndex, bw, rtt);
      match bw
      case Fin(b) =>
        && rate == Fin(Times(PacingGain(phase, cycleIndex), b))
        && IsClampedWindow(window, Times(WindowGain(phase, cycleIndex), Times(b, rtt)))
      case Inf => rate == Inf && window == if rtt == 0.0 then 5600 else 1048576
      case NaN => rate == NaN && window == 5600
  {
    hide RateFor, WindowFor, PacingGain, WindowGain, IsClampedWindow, Times;
    SpecialControl(phase, cycleIndex, rtt);
    if bw.Fin? {
      RateIsGain(phase, cycleIndex, bw.value);
      WindowIsGain(phase, cycleIndex, bw.value, rtt);
    }
  }

  lemma DrainRate(bw: nonneg)
    ensures Div(Fin(bw), Fin(STARTUP_PACING_GAIN)) == Fin(bw / 2.77)
    ensures bw / 2.77 == 1.0 / 2.77 * bw
  {
  }

  /** Sum of the gains of the `n` cycle indices from `start` on. */
  function GainSum(start: nat, n: nat): real {
    if n == 0 then 0.0 else GainSum(start, n - 1) + Gain(start + n - 1)
  }

  /** Any eight consecutive phases of the cycle probe up and drain by the same amount: their
      average gain is one, wherever the cycle is entered. */
  lemma {:induction false} CycleIsNeutral(start: nat)
    ensures GainSum(start, 8) == 8.0
  {
    hide Gain;
    if start == 0 {
      FirstCycle();
    } else {
      CycleIsNeutral(start - 1);
      GainSumShift(start - 1, 8);
      GainPeriod(start - 1);
    }
  }

  lemma GainPeriod(start: nat)
    ensures Gain(start + 8) == Gain(start)
  {
  }

  lemma FirstCycle()
    ensures GainSum(0, 8) == 8.0
  {
    hide Gain;
    assert GainSum(0, 2) == 2.0 by { GainTable(0); GainTable(1); }
    assert GainSum(0, 4) == 4.0 by { GainTable(2); GainTable(3); }
    assert GainSum(0, 6) == 6.0 by { GainTable(4); GainTable(5); }
    assert GainSum(0, 8) == 8.0 by { GainTable(6); GainTable(7); }
  }

  lemma {:induction false} GainSumShift(start: nat, n: nat)
    ensures GainSum(start + 1, n) == GainSum(start, n) - Gain(start) + Gain(start + n)
  {
    hide Gain;
    if n > 0 {
      GainSumShift(start, n - 1);
    }
  }

  lemma UpdatedFilterNotNaN(f: Filter, bw: Float, now: real, len: real)
    ensures UpdateFilter(f, bw, now, len).maxBw != NaN
  {
    MaxOfIsMax(DropOld(f.samples + [Sample(bw, now)], now - len));
  }

  lemma {:induction false} BandwidthNotNaN(t0: real, es: seq<Event>)
    ensures Run(Init(t0), es).filter.maxBw != NaN
  {
    hide Step, Div;
    if es != [] {
      var s, e := Run(Init(t0), es[..|es| - 1]), es[|es| - 1];
      BandwidthNotNaN(t0, es[..|es| - 1]);
      StepFilter(s, e);
      if e.Acked? {
        UpdatedFilterNotNaN(s.filter, Div(Fin(e.bytes as real), Fin(e.rtt)), e.now, BW_FILTER_LEN);
      }
    }
  }

  /** After the first event, rate and window are always the fixed function of (phase, cycle
      index, bandwidth, min RTT), and the rate lies in [bandwidth/2.77, 2.77*bandwidth]. */
  lemma ControlOfRun(t0: real, es: seq<Event>)
    requires es != []
    ensures var s := Run(Init(t0), es);
      && ControlCurrent(s)
      && Le(Div(s.filter.maxBw, Fin(2.77)), s.pacingRate)
      && Le(s.pacingRate, Mul(Fin(2.77), s.filter.maxBw))
  {
    var s, e := Run(Init(t0), es[..|es| - 1]), es[|es| - 1];
    match e {
      case Sent(now) => SettleIsCurrent(CountSent(s), now);
      case Acked(bytes, rtt, now) => SettleIsCurrent(UpdateModel(CountAcked(s), bytes, rtt, now), now);
      case Lost(now) => SettleIsCurrent(s, now);
    }
    var u := Run(Init(t0), es);
    BandwidthNotNaN(t0, es);
    RateNearBandwidth(u.phase, u.cycleIndex, u.filter.maxBw);
  }

  /** A round trip measured as zero makes the rate infinite and, because the product of the
      infinite bandwidth and the zero RTT is not a number, the window minimal. */
  lemma ZeroRttCollapsesWindow(s: Bbr, bytes: nat, now: real)
    requires bytes > 0
    ensures var u := OnAck(s, bytes, 0.0, now);
      u.minRtt == 0.0 && u.filter.maxBw == Inf && u.pacingRate == Inf && u.cwnd == 5600
  {
    var m := UpdateModel(CountAcked(s), bytes, 0.0, now);
    var all := s.filter.samples + [Sample(Inf, now)];
    var k := DropOldShape(all, now - BW_FILTER_LEN);
    var kept := all[k..];
    MaxOfIsMax(kept);
    assert all[|all| - 1] == Sample(Inf, now);
    assert kept[|kept| - 1].bw == Inf;
    assert m.filter.maxBw == Inf && m.minRtt == 0.0;
    SettleFrame(m, now);
    SettleIsCurrent(m, now);
  }

  // ---------------------------------------------------------------- zero round trips

  /** An ACK of at least one byte whose round trip was measured as zero. */
  predicate IsZeroRtt(e: Event) {
    e.Acked? && e.bytes > 0 && e.rtt == 0.0
  }

  function LastAckTime(es: seq<Event>): Option<real> {
    if es == [] then None
    else if es[|es| - 1].Acked? then Some(es[|es| - 1].now)
    else LastAckTime(es[..|es| - 1])
  }

  /** Such an ACK lies in the two seconds before the last ACK. */
  ghost predicate ZeroRttInWindow(es: seq<Event>) {
    && LastAckTime(es).Some?
    && exists i :: 0 <= i < |es| && IsZeroRtt(es[i]) && es[i].now >= LastAckTime(es).value - 2.0
  }

  lemma {:induction false} LastSampleTime(es: seq<Event>)
    ensures var h := BwHistory(es);
      LastAckTime(es) == if h == [] then None else Some(h[|h| - 1].time)
  {
    hide Div;
    if es != [] {
      LastSampleTime(es[..|es| - 1]);
    }
  }

  lemma InfiniteRate(bytes: nat, rtt: nonneg)
    ensures Div(Fin(bytes as real), Fin(rtt)) == Inf <==> bytes > 0 && rtt == 0.0
  {
  }

  /** The infinite samples of the history are exactly those of zero round trips. */
  lemma {:induction false} InfiniteSamples(es: seq<Event>, from: real)
    ensures (exists i :: 0 <= i < |es| && IsZeroRtt(es[i]) && es[i].now >= from)
       <==> (exists j :: 0 <= j < |BwHistory(es)| && BwHistory(es)[j].bw == Inf && BwHistory(es)[j].time >= from)
  {
    if es != [] {
      hide Div;
      var n := |es| - 1;
      var init, e := es[..n], es[n];
      InfiniteSamples(init, from);
      assert forall i :: 0 <= i < n ==> es[i] == init[i];
      var g, h := BwHistory(init), BwHistory(es);
      if e.Acked? {
        InfiniteRate(e.bytes, e.rtt);
        assert h[|g|] == Sample(Div(Fin(e.bytes as real), Fin(e.rtt)), e.now);
      }
      assert forall j :: 0 <= j < |g| ==> h[j] == g[j];
    }
  }

  /** In every run with forward time, the bandwidth estimate is infinite if and only if an
      ACK with a zero round trip lies in the two seconds before the last ACK. */
  lemma InfiniteBandwidthIff(t0: real, es: seq<Event>)
    requires InOrder(t0, es)
    ensures Run(Init(t0), es).filter.maxBw == Inf <==> ZeroRttInWindow(es)
  {
    hide Run, Init, BwHistory, InOrder, IsZeroRtt;
    BandwidthEstimate(t0, es);
    LastSampleTime(es);
    var h := BwHistory(es);
    if h != [] {
      InfiniteSamples(es, h[|h| - 1].time - BW_FILTER_LEN);
    }
  }

  /** What the controller does meanwhile: exactly then the rate is infinite, and the window is
      minimal while the minimum RTT is zero and maximal once it has been renewed above zero. */
  lemma ZeroRttControl(t0: real, es: seq<Event>)
    requires InOrder(t0, es) && es != []
    ensures var u := Run(Init(t0), es);
      && (u.pacingRate == Inf <==> ZeroRttInWindow(es))
      && (ZeroRttInWindow(es) ==> u.cwnd == if u.minRtt == 0.0 then 5600 else 1048576)
  {
    hide Run, Init, InOrder, ZeroRttInWindow, RateFor, WindowFor, PacingGain, WindowGain, Times, Mul, Div;
    InfiniteBandwidthIff(t0, es);
    ControlOfRun(t0, es);
    BandwidthNotNaN(t0, es);
    var u := Run(Init(t0), es);
    ControlIsGain(u.phase, u.cycleIndex, u.filter.maxBw, u.minRtt);
  }

  /** Three ACKs of packets that hold a header and nothing else. */
  const ZERO_RTT_RUN := [Acked(32, 0.0, 0.0), Acked(32, 0.0, 9.5), Acked(32, 1.0, 10.5)]

  /** Both ends happen in one run: two zero round trips close the window, and when the minimum
      RTT expires less than two seconds after the second one, the window opens fully. */
  lemma ZeroRttBothEnds()
    ensures Run(Init(0.0), ZERO_RTT_RUN[..2]).cwnd == 5600
    ensures Run(Init(0.0), ZERO_RTT_RUN).cwnd == 1048576 && Run(Init(0.0), ZERO_RTT_RUN).minRtt == 1.0
  {
    hide Step, WindowFor, RateFor;
    var es, s0 := ZERO_RTT_RUN, Init(0.0);
    assert es[..2][..1] == [es[0]] && es[..2][1] == es[1] && es[..3] == es && [es[0]][..0] == [];
    var s1, s2, s3 := Step(s0, es[0]), Step(Step(s0, es[0]), es[1]), Step(Step(Step(s0, es[0]), es[1]), es[2]);
    assert Run(s0, []) == s0 && Run(s0, [es[0]]) == s1 && Run(s0, es[..2]) == s2 && Run(s0, es) == s3;
    StepRtt(s0, es[0]);
    StepRtt(s1, es[1]);
    StepRtt(s2, es[2]);
    ZeroRttTail(es[..2]);
    ZeroRttControl(0.0, es[..2]);
    ZeroRttTail(es);
    ZeroRttControl(0.0, es);
  }

  lemma ZeroRttTail(es: seq<Event>)
    requires |es| >= 2 && es[|es| - 1].Acked? && IsZeroRtt(es[1]) && es[1].now >= es[|es| - 1].now - BW_FILTER_LEN
    ensures ZeroRttInWindow(es)
  {
    assert LastAckTime(es) == Some(es[|es| - 1].now);
  }

  // ---------------------------------------------------------------- phases

  /** Every possible change of phase, and when it happens. */
  lemma PhaseStep(s: Bbr, e: Event)
    ensures var u := Step(s, e);
      && u.packetsAcked == s.packetsAcked + (if e.Acked? then 1 else 0)
      && (s.phase == Startup ==> u.phase == if u.packetsAcked > 3 * (s.cwnd / 1400) then Drain else Startup)
      && (s.phase == Startup && u.phase == Drain ==> u.stateStart == e.now)
      && (s.phase == Drain ==> u.phase == ProbeBw && u.cycleIndex == 0 && u.cycleStart == u.stateStart == e.now)
      && (s.phase == ProbeBw ==> u.phase == if e.now - u.minRttStamp > 10.0 then ProbeRtt else ProbeBw)
      && (s.phase == ProbeBw && u.phase == ProbeRtt ==> u.stateStart == e.now)
      && (s.phase == ProbeRtt ==> u.phase == if e.now - s.stateStart >= 0.2 then ProbeBw else ProbeRtt)
  {
    match e
    case Sent(now) => PhaseSettle(CountSent(s), now);
    case Acked(bytes, rtt, now) => PhaseSettle(UpdateModel(CountAcked(s), bytes, rtt, now), now);
    case Lost(now) => PhaseSettle(s, now);
  }

  lemma PhaseSettle(s: Bbr, now: real)
    ensures var u := Settle(s, now);
      && u.packetsAcked == s.packetsAcked && u.minRttStamp == s.minRttStamp
      && (s.phase == Startup ==> u.phase == if s.packetsAcked > 3 * (s.cwnd / 1400) then Drain else Startup)
      && (s.phase == Startup && u.phase == Drain ==> u.stateStart == now)
      && (s.phase == Drain ==> u.phase == ProbeBw && u.cycleIndex == 0 && u.cycleStart == u.stateStart == now)
      && (s.phase == ProbeBw ==> u.phase == if now - s.minRttStamp > 10.0 then ProbeRtt else ProbeBw)
      && (s.phase == ProbeBw && u.phase == ProbeRtt ==> u.stateStart == now)
      && (s.phase == ProbeRtt ==> u.phase == if now - s.stateStart >= 0.2 then ProbeBw else ProbeRtt)
  {
    hide RateFor, WindowFor;
  }

  /** When Drain may end, for any number of bytes in flight: once they fit the
      bandwidth-delay product. (The event handlers always pass 0, so it ends at once.) */
  lemma DrainEndsIff(s: Bbr, bytesInFlight: u64, now: real)
    requires s.phase == Drain && s.filter.maxBw.Fin?
    ensures var u := UpdateState(s, bytesInFlight, now);
      if bytesInFlight as real <= Times(s.filter.maxBw.value, s.minRtt)
      then u == s.(phase := ProbeBw, stateStart := now, cycleStart := now, cycleIndex := 0)
      else u == s
  {
    hide Mul, Times;
    ProductIs(s.filter.maxBw.value, s.minRtt);
  }

  /** Startup for the first `k` states, Drain in state `k` only, ProbeBw or ProbeRtt after. */
  ghost predicate PhaseShape(t0: real, es: seq<Event>, k: nat) {
    forall i :: 0 <= i <= |es| ==>
      match Run(Init(t0), es[..i]).phase
      case Startup => i < k
      case Drain => i == k
      case _ => i > k
  }

  /** BBR phase progress over every event sequence: Startup is never re-entered, Drain ends
      at the very next event and is never re-entered. */
  lemma {:induction false} PhaseProgress(t0: real, es: seq<Event>) returns (k: nat)
    ensures PhaseShape(t0, es, k)
  {
    hide Step;
    if es == [] {
      k := 1;
    } else {
      var n := |es| - 1;
      var init := es[..n];
      var j := PhaseProgress(t0, init);
      assert forall i :: 0 <= i <= n ==> init[..i] == es[..i];
      assert es[..n + 1] == es && init[..n] == init;
      PhaseStep(Run(Init(t0), init), es[n]);
      match Run(Init(t0), init).phase
      case Startup =>
        k := if Run(Init(t0), es).phase == Drain then n + 1 else n + 2;
      case _ =>
        k := j;
    }
  }

  /** Startup cannot survive the 2245th ACK and cannot be left before the 13th. */
  lemma {:induction false} StartupLength(t0: real, es: seq<Event>)
    ensures var s := Run(Init(t0), es);
      && s.packetsAcked == AckCount(es)
      && (s.phase == Startup ==> AckCount(es) <= 2244)
      && (s.phase != Startup ==> AckCount(es) >= 13)
  {
    hide Step;
    if es != [] {
      var init := es[..|es| - 1];
      StartupLength(t0, init);
      CwndBounded(t0, init);
      PhaseStep(Run(Init(t0), init), es[|es| - 1]);
    }
  }

  /** `n` ACKs of `bytes` bytes each, one second round trip, all at the same moment. */
  function Repeat(bytes: nat, n: nat): seq<Event> {
    seq(n, _ => Acked(bytes, 1.0, 0.0))
  }

  lemma RepeatStep(s: Bbr, bytes: nat)
    requires s.minRtt == 1.0 && s.minRttStamp == 0.0 && s.phase == Startup
    requires forall i :: 0 <= i < |s.filter.samples| ==> s.filter.samples[i] == Sample(Fin(bytes as real), 0.0)
    requires 0 < bytes <= MAX_CWND
    ensures var u := OnAck(s, bytes, 1.0, 0.0);
      && u.minRtt == 1.0 && u.minRttStamp == 0.0
      && (forall i :: 0 <= i < |u.filter.samples| ==> u.filter.samples[i] == Sample(Fin(bytes as real), 0.0))
      && (u.phase == Startup ==> u.cwnd == Clamp(2 * bytes))
  {
    var m := UpdateModel(CountAcked(s), bytes, 1.0, 0.0);
    assert Div(Fin(bytes as real), Fin(1.0)) == Fin(bytes as real);
    var all := s.filter.samples + [Sample(Fin(bytes as real), 0.0)];
    assert DropOld(all, 0.0 - BW_FILTER_LEN) == all;
    MaxOfIsMax(all);
    assert all[|all| - 1].bw == Fin(bytes as real);
    assert m.filter == Filter(all, Fin(bytes as real));
    SettleFrame(m, 0.0);
    SettleIsCurrent(m, 0.0);
    assert ToUsize(Fin((2 * bytes) as real)) == 2 * bytes;
    assert Mul(Fin(STARTUP_CWND_GAIN), Mul(Fin(bytes as real), Fin(1.0))) == Fin((2 * bytes) as real);
  }

  /** Both bounds of StartupLength are reached: with ACKs of constant size the machine is
      in Startup after `n` ACKs exactly while n <= 3 * (window / 1400), which is 12 for
      small packets and 2244 for large ones. */
  lemma {:induction false} SteadyStartup(bytes: nat, n: nat)
    requires 0 < bytes <= MAX_CWND
    requires n <= 3 * (Clamp(2 * bytes) / 1400) + 1
    ensures var s := Run(Init(0.0), Repeat(bytes, n));
      && (s.phase == Startup <==> n <= 3 * (Clamp(2 * bytes) / 1400))
      && s.packetsAcked == n && s.minRtt == 1.0 && s.minRttStamp == 0.0
      && (forall i :: 0 <= i < |s.filter.samples| ==> s.filter.samples[i] == Sample(Fin(bytes as real), 0.0))
      && (s.phase == Startup ==> s.cwnd == if n == 0 then 14000 else Clamp(2 * bytes))
  {
    hide OnAck;
    if n > 0 {
      SteadyStartup(bytes, n - 1);
      var s := Run(Init(0.0), Repeat(bytes, n - 1));
      assert Repeat(bytes, n)[..n - 1] == Repeat(bytes, n - 1);
      PhaseStep(s, Acked(bytes, 1.0, 0.0));
      RepeatStep(s, bytes);
    }
  }

  /** `n` ACKs after ZERO_RTT_RUN, at its last moment. */
  function ZeroRttThen(n: nat): seq<Event> {
    ZERO_RTT_RUN + seq(n, _ => Acked(32, 1.0, 10.5))
  }

  lemma ZeroRttStep(n: nat)
    requires n > 0
    ensures ZeroRttThen(n)[..|ZeroRttThen(n)| - 1] == ZeroRttThen(n - 1)
    ensures ZeroRttThen(n)[|ZeroRttThen(n)| - 1] == Acked(32, 1.0, 10.5)
    ensures InOrder(0.0, ZeroRttThen(n)) && ZeroRttInWindow(ZeroRttThen(n))
  {
    var es := ZeroRttThen(n);
    assert es[1] == ZERO_RTT_RUN[1];
    ZeroRttTail(es);
  }

  lemma ZeroRttFirst()
    ensures Run(Init(0.0), ZERO_RTT_RUN).phase == Startup && Run(Init(0.0), ZERO_RTT_RUN).packetsAcked == 3
    ensures Run(Init(0.0), ZERO_RTT_RUN).minRttStamp == 10.5
  {
    hide Step;
    var es, s0 := ZERO_RTT_RUN, Init(0.0);
    assert es[..3] == es && es[..2][..1] == es[..1] && es[..1][..0] == [] && es[..2][1] == es[1];
    var s1 := Step(s0, es[0]);
    var s2 := Step(s1, es[1]);
    assert Run(s0, []) == s0 && Run(s0, es[..1]) == s1 && Run(s0, es[..2]) == s2 && Run(s0, es) == Step(s2, es[2]);
    PhaseStep(s0, es[0]);
    PhaseStep(s1, es[1]);
    PhaseStep(s2, es[2]);
    StepCwnd(s0, es[0]);
    StepCwnd(s1, es[1]);
    StepRtt(s0, es[0]);
    StepRtt(s1, es[1]);
    StepRtt(s2, es[2]);
  }

  /** With the window held open by a zero round trip, small packets stay in Startup as long as
      the largest window allows. */
  lemma {:induction false} LongStartup(n: nat)
    requires n <= 2242
    ensures var s := Run(Init(0.0), ZeroRttThen(n));
      && s.packetsAcked == n + 3 && s.minRtt == 1.0 && s.minRttStamp == 10.5 && s.cwnd == MAX_CWND
      && (s.phase == Startup <==> n <= 2241)
  {
    hide Step, Init, InOrder, ZeroRttInWindow;
    if n == 0 {
      ZeroRttFirst();
      ZeroRttBothEnds();
      assert ZeroRttThen(0) == ZERO_RTT_RUN;
    } else {
      LongStartup(n - 1);
      ZeroRttStep(n);
      var s := Run(Init(0.0), ZeroRttThen(n - 1));
      PhaseStep(s, Acked(32, 1.0, 10.5));
      StepRtt(s, Acked(32, 1.0, 10.5));
      ZeroRttControl(0.0, ZeroRttThen(n));
    }
  }

  /** Both bounds are attained: the lower one by 13 ACKs of 32 bytes, the upper one by 2245
      such ACKs of which the first two measured a zero round trip. */
  lemma StartupBoundsReached()
    ensures Run(Init(0.0), Repeat(32, 12)).phase == Startup && Run(Init(0.0), Repeat(32, 13)).phase == Drain
    ensures var long := ZeroRttThen(2241);
      && |long| == AckCount(long) == 2244 && Run(Init(0.0), long).phase == Startup
      && Run(Init(0.0), ZeroRttThen(2242)).phase == Drain
  {
    hide OnAck, InOrder, ZeroRttInWindow;
    SteadyStartup(32, 12);
    SteadyStartup(32, 13);
    assert Repeat(32, 13)[..12] == Repeat(32, 12);
    PhaseStep(Run(Init(0.0), Repeat(32, 12)), Acked(32, 1.0, 0.0));
    LongStartup(2241);
    LongStartup(2242);
    StartupLength(0.0, ZeroRttThen(2241));
    ZeroRttStep(2242);
    PhaseStep(Run(Init(0.0), ZeroRttThen(2241)), Acked(32, 1.0, 10.5));
  }

  // ---------------------------------------------------------------- the first ten seconds

  /** Nothing happens later than the lifetime of the minimum RTT after the start. */
  ghost predicate Early(t0: real, es: seq<Event>) {
    forall i :: 0 <= i < |es| ==> es[i].now - t0 <= 10.0
  }

  ghost predicate AcksAtMost(es: seq<Event>, limit: nat) {
    forall i :: 0 <= i < |es| && es[i].Acked? ==> es[i].bytes <= limit
  }

  /** In that time the minimum RTT never expires, so it is below every sample. */
  lemma {:induction false} MinRttBelowAll(t0: real, es: seq<Event>)
    requires Early(t0, es) && InOrder(t0, es)
    ensures var s := Run(Init(t0), es);
      && s.minRttStamp >= t0
      && forall i :: 0 <= i < |es| && es[i].Acked? ==> s.minRtt <= es[i].rtt
  {
    hide Step;
    if es != [] {
      var n := |es| - 1;
      InOrderPrefix(t0, es);
      MinRttBelowAll(t0, es[..n]);
      StepRtt(Run(Init(t0), es[..n]), es[n]);
      assert forall i :: 0 <= i < n ==> es[i] == es[..n][i];
    }
  }

  /** Every delivery rate comes from one ACK. */
  lemma {:induction false} SampleSource(es: seq<Event>, j: nat) returns (i: nat)
    requires j < |BwHistory(es)|
    ensures i < |es| && es[i].Acked? && BwHistory(es)[j].bw == Div(Fin(es[i].bytes as real), Fin(es[i].rtt))
  {
    hide Div;
    var n := |es| - 1;
    if j < |BwHistory(es[..n])| {
      i := SampleSource(es[..n], j);
    } else {
      i := n;
    }
  }

  /** One packet's rate times a round trip no longer than its own is at most that packet. */
  lemma RateTimesRtt(bytes: nat, rtt: nonneg, bw: nonneg, shorter: nonneg)
    requires Div(Fin(bytes as real), Fin(rtt)) == Fin(bw) && shorter <= rtt
    ensures Times(bw, shorter) <= bytes as real
  {
    assert rtt > 0.0 && bw == bytes as real / rtt;
    assert bw * rtt == bytes as real;
    ProductNonneg(bw, rtt - shorter);
    assert bw * (rtt - shorter) == bw * rtt - bw * shorter;
  }

  /** The bandwidth-delay product never exceeds the largest acknowledged packet, and an
      infinite bandwidth comes with a zero minimum RTT. */
  lemma EarlyProduct(t0: real, es: seq<Event>, limit: nat)
    requires InOrder(t0, es) && Early(t0, es) && AcksAtMost(es, limit)
    ensures var s := Run(Init(t0), es);
      match s.filter.maxBw
      case Fin(bw) => Times(bw, s.minRtt) <= limit as real
      case Inf => s.minRtt == 0.0
      case NaN => false
  {
    hide Run, Init, InOrder, Early, Div, Times, BwHistory;
    var s, h := Run(Init(t0), es), BwHistory(es);
    MinRttBelowAll(t0, es);
    BandwidthNotNaN(t0, es);
    BandwidthEstimate(t0, es);
    if s.filter.maxBw == Fin(0.0) {
      NoProduct(s.minRtt);
    } else {
      var j :| 0 <= j < |h| && h[j].bw == s.filter.maxBw;
      var i := SampleSource(es, j);
      match s.filter.maxBw
      case Fin(bw) => RateTimesRtt(es[i].bytes, es[i].rtt, bw, s.minRtt);
      case Inf => InfiniteRate(es[i].bytes, es[i].rtt);
    }
  }

  lemma NoProduct(x: nonneg)
    ensures Times(0.0, x) == 0.0
  {
  }

  lemma GainAtMostTwo(phase: Phase, cycleIndex: nat, bdp: nonneg)
    ensures Times(WindowGain(phase, cycleIndex), bdp) <= 2.0 * bdp
  {
    var g := WindowGain(phase, cycleIndex);
    assert g <= 2.0;
    ProductNonneg(2.0 - g, bdp);
    assert (2.0 - g) * bdp == 2.0 * bdp - g * bdp;
  }

  lemma WindowAtMost(window: nat, target: real, limit: nat)
    requires IsClampedWindow(window, target) && target <= 2.0 * limit as real
    ensures window <= Max(MIN_CWND, 2 * limit)
  {
  }

  /** In the first ten seconds the window never exceeds twice the largest acknowledged packet
      (or its minimum), however fast the path: each rate divides one packet by its own round
      trip. */
  lemma EarlyWindow(t0: real, es: seq<Event>, limit: nat)
    requires InOrder(t0, es) && Early(t0, es) && AcksAtMost(es, limit) && es != []
    ensures 5600 <= Run(Init(t0), es).cwnd <= Max(5600, 2 * limit)
  {
    hide Run, Init, InOrder, Early, AcksAtMost, RateFor, WindowFor, PacingGain, WindowGain, Times, IsClampedWindow, Mul,
      Div;
    var s := Run(Init(t0), es);
    CwndBounded(t0, es);
    EarlyProduct(t0, es, limit);
    ControlOfRun(t0, es);
    ControlIsGain(s.phase, s.cycleIndex, s.filter.maxBw, s.minRtt);
    match s.filter.maxBw
    case Fin(bw) =>
      var bdp := Times(bw, s.minRtt);
      GainAtMostTwo(s.phase, s.cycleIndex, bdp);
      WindowAtMost(s.cwnd, Times(WindowGain(s.phase, s.cycleIndex), bdp), limit);
    case Inf =>
  }

  lemma EarlyPrefix(t0: real, es: seq<Event>, limit: nat)
    requires InOrder(t0, es) && Early(t0, es) && AcksAtMost(es, limit) && es != []
    ensures var init := es[..|es| - 1]; InOrder(t0, init) && Early(t0, init) && AcksAtMost(init, limit)
  {
  }

  /** So Startup is short in that time: it ends after the ACKs that the larger of the minimal
      window and two packets allow. With packets of at most 2800 bytes the window is always
      minimal, and Startup lasts exactly 12 ACKs. */
  lemma {:induction false} EarlyStartup(t0: real, es: seq<Event>, limit: nat)
    requires InOrder(t0, es) && Early(t0, es) && AcksAtMost(es, limit)
    ensures var s := Run(Init(t0), es);
      && (s.phase == Startup ==> AckCount(es) <= 3 * (Max(5600, 2 * limit) / 1400))
      && (limit <= 2800 ==>
            && (s.phase == Startup <==> AckCount(es) <= 12)
            && (es != [] ==> s.cwnd == 5600))
  {
    hide Step, InOrder, Early, AcksAtMost;
    StartupLength(t0, es);
    if es != [] {
      var init := es[..|es| - 1];
      EarlyPrefix(t0, es, limit);
      EarlyStartup(t0, init, limit);
      StartupLength(t0, init);
      EarlyWindow(t0, es, limit);
      if init != [] {
        EarlyWindow(t0, init, limit);
      }
      PhaseStep(Run(Init(t0), init), es[|es| - 1]);
    }
  }

  // ---------------------------------------------------------------- ProbeRtt

  /** An ACK never enters ProbeRtt, from any state: the stamp is refreshed first. */
  lemma AckNeverEntersProbeRtt(s: Bbr, bytes: nat, rtt: nonneg, now: real)
    ensures var u := OnAck(s, bytes, rtt, now);
      && now - u.minRttStamp <= 10.0
      && (s.phase != ProbeRtt ==> u.phase != ProbeRtt)
  {
    var e := Acked(bytes, rtt, now);
    PhaseStep(s, e);
    StepRtt(s, e);
  }

  /** Nor does any loss handled at the same moment after it. */
  lemma {:induction false} LossAfterAckNeverEntersProbeRtt(s: Bbr, now: real, n: nat)
    requires now - s.minRttStamp <= 10.0
    ensures var u := Run(s, seq(n, _ => Lost(now)));
      && u.minRttStamp == s.minRttStamp
      && (s.phase != ProbeRtt ==> u.phase != ProbeRtt)
  {
    hide Step;
    if n > 0 {
      var es := seq(n, _ => Lost(now));
      LossAfterAckNeverEntersProbeRtt(s, now, n - 1);
      assert es[..n - 1] == seq(n - 1, _ => Lost(now));
      PhaseStep(Run(s, es[..n - 1]), Lost(now));
      StepRtt(Run(s, es[..n - 1]), Lost(now));
    }
  }

  lemma ProbeRttEntry(s: Bbr, e: Event)
    requires s.phase != ProbeRtt && Step(s, e).phase == ProbeRtt
    ensures !e.Acked? && s.phase == ProbeBw && e.now - s.minRttStamp > 10.0
    ensures Step(s, e).stateStart == e.now
  {
    hide Step;
    PhaseStep(s, e);
    StepRtt(s, e);
  }

  /** Once entered, ProbeRtt holds through every event of the next 200 ms, and the first
      event after that returns to ProbeBw at the start of the gain cycle. */
  lemma {:induction false} ProbeRttExit(s: Bbr, es: seq<Event>, e: Event)
    requires s.phase == ProbeRtt
    requires forall i :: 0 <= i < |es| ==> es[i].now - s.stateStart < 0.2
    requires e.now - s.stateStart >= 0.2
    ensures var m := Run(s, es); m.phase == ProbeRtt && m.stateStart == s.stateStart
    ensures var u := Run(s, es + [e]); u.phase == ProbeBw && u.cycleIndex == 0 && u.cycleStart == u.stateStart == e.now
  {
    hide Step;
    ProbeRttHolds(s, es);
    assert (es + [e])[..|es|] == es && (es + [e])[|es|] == e;
    assert Run(s, es + [e]) == Step(Run(s, es), e);
    ProbeRttLeaves(Run(s, es), e);
  }

  lemma {:induction false} ProbeRttHolds(s: Bbr, es: seq<Event>)
    requires s.phase == ProbeRtt
    requires forall i :: 0 <= i < |es| ==> es[i].now - s.stateStart < 0.2
    ensures Run(s, es).phase == ProbeRtt && Run(s, es).stateStart == s.stateStart
  {
    hide Step;
    if es != [] {
      ProbeRttHolds(s, es[..|es| - 1]);
      ProbeRttLeaves(Run(s, es[..|es| - 1]), es[|es| - 1]);
    }
  }

  lemma ProbeRttLeaves(s: Bbr, e: Event)
    requires s.phase == ProbeRtt
    ensures var u := Step(s, e);
      if e.now - s.stateStart >= 0.2
      then u.phase == ProbeBw && u.cycleIndex == 0 && u.cycleStart == u.stateStart == e.now
      else u.phase == ProbeRtt && u.stateStart == s.stateStart
  {
    hide RateFor, WindowFor;
  }

  // ---------------------------------------------------------------- gain cycling

  /** The machine is in ProbeBw before and after every event. */
  ghost predicate HoldsProbeBw(s: Bbr, es: seq<Event>) {
    forall i :: 0 <= i <= |es| ==> Run(s, es[..i]).phase == ProbeBw
  }

  /** How often the cycle index changes. */
  function Advances(s: Bbr, es: seq<Event>): nat {
    if es == [] then 0
    else
      var init := es[..|es| - 1];
      Advances(s, init) + if Run(s, es).cycleIndex != Run(s, init).cycleIndex then 1 else 0
  }

  lemma CycleStep(s: Bbr, e: Event)
    requires s.phase == ProbeBw && Step(s, e).phase == ProbeBw && s.cycleIndex < 8
    ensures var u := Step(s, e);
      && u.stateStart == s.stateStart
      && (if e.now - s.cycleStart >= 1.0
          then u.cycleIndex == (s.cycleIndex + 1) % 8 && u.cycleStart == e.now
          else u.cycleIndex == s.cycleIndex && u.cycleStart == s.cycleStart)
  {
    hide RateFor, WindowFor;
  }

  lemma NextMod8(a: nat)
    ensures (a % 8 + 1) % 8 == (a + 1) % 8 && (a % 8 + 1) % 8 != a % 8
  {
  }

  /** Gain cycling: while ProbeBw is held, the index counts the advances modulo 8 from 0,
      and there is at most one advance per second held. */
  lemma {:induction false} GainCycle(s: Bbr, es: seq<Event>)
    requires s.phase == ProbeBw && s.cycleIndex == 0 && s.cycleStart == s.stateStart
    requires InOrder(s.stateStart, es) && HoldsProbeBw(s, es)
    ensures var u, k := Run(s, es), Advances(s, es);
      && u.cycleIndex == k % 8 && u.stateStart == s.stateStart
      && s.stateStart + k as real <= u.cycleStart
      && (es != [] ==> u.cycleStart <= es[|es| - 1].now && k <= (es[|es| - 1].now - s.stateStart).Floor)
  {
    hide Step;
    if es != [] {
      var n := |es| - 1;
      var init, e := es[..n], es[n];
      InOrderPrefix(s.stateStart, es);
      assert HoldsProbeBw(s, init) by {
        assert forall i :: 0 <= i <= n ==> init[..i] == es[..i];
      }
      GainCycle(s, init);
      assert es[..|es|] == es;
      var m := Run(s, init);
      assert m.phase == ProbeBw && Run(s, es).phase == ProbeBw;
      CycleStep(m, e);
      NextMod8(Advances(s, init));
    }
  }

  /** Every entry to ProbeBw starts the gain cycle afresh at that moment. */
  lemma ProbeBwEntry(s: Bbr, e: Event)
    requires s.phase != ProbeBw && Step(s, e).phase == ProbeBw
    ensures var u := Step(s, e); u.cycleIndex == 0 && u.cycleStart == u.stateStart == e.now
  {
    hide Step;
    PhaseStep(s, e);
    if s.phase == ProbeRtt {
      ProbeRttLeaves(s, e);
    }
  }

  lemma {:induction false} RunAppend(s: Bbr, a: seq<Event>, b: seq<Event>)
    ensures Run(s, a + b) == Run(Run(s, a), b)
  {
    hide Step;
    if b == [] {
      assert a + b == a;
    } else {
      var n := |b| - 1;
      RunAppend(s, a, b[..n]);
      assert (a + b)[..|a + b| - 1] == a + b[..n];
      assert (a + b)[|a + b| - 1] == b[n];
    }
  }

  /** Gain cycling in whole runs: from the event `i` that enters ProbeBw, as long as the phase
      is held, the index counts its advances modulo 8 from 0, and there is at most one
      advance for each full second since the entry. */
  lemma GainCycleOfRun(t0: real, es: seq<Event>, i: nat)
    requires InOrder(t0, es) && i < |es|
    requires Run(Init(t0), es[..i]).phase != ProbeBw
    requires forall k :: i < k <= |es| ==> Run(Init(t0), es[..k]).phase == ProbeBw
    ensures var k := Advances(Run(Init(t0), es[..i + 1]), es[i + 1..]);
      && Run(Init(t0), es).cycleIndex == k % 8
      && k <= (es[|es| - 1].now - es[i].now).Floor
  {
    hide Step, Init, Advances, Run, InOrder, HoldsProbeBw;
    var s, tail := Run(Init(t0), es[..i + 1]), es[i + 1..];
    EnteredAt(Init(t0), es, i);
    HeldAfter(Init(t0), es, i + 1);
    OrderedTail(t0, es, i);
    GainCycle(s, tail);
    RunFrom(Init(t0), es, i + 1, |tail|);
    assert es[..i + 1 + |tail|] == es && tail[..|tail|] == tail;
    if tail == [] {
      NoAdvance(s);
    }
  }

  lemma EnteredAt(s0: Bbr, es: seq<Event>, i: nat)
    requires i < |es| && Run(s0, es[..i]).phase != ProbeBw && Run(s0, es[..i + 1]).phase == ProbeBw
    ensures var s := Run(s0, es[..i + 1]); s.cycleIndex == 0 && s.cycleStart == s.stateStart == es[i].now
  {
    hide Step;
    assert es[..i + 1][..i] == es[..i] && es[..i + 1][i] == es[i];
    ProbeBwEntry(Run(s0, es[..i]), es[i]);
  }

  lemma RunFrom(s0: Bbr, es: seq<Event>, m: nat, k: nat)
    requires m + k <= |es|
    ensures Run(s0, es[..m + k]) == Run(Run(s0, es[..m]), es[m..][..k])
  {
    hide Run;
    RunAppend(s0, es[..m], es[m..][..k]);
    assert es[..m] + es[m..][..k] == es[..m + k];
  }

  lemma HeldAfter(s0: Bbr, es: seq<Event>, m: nat)
    requires m <= |es| && forall k :: m <= k <= |es| ==> Run(s0, es[..k]).phase == ProbeBw
    ensures HoldsProbeBw(Run(s0, es[..m]), es[m..])
  {
    hide Run;
    forall k | 0 <= k <= |es[m..]|
      ensures Run(Run(s0, es[..m]), es[m..][..k]).phase == ProbeBw
    {
      RunFrom(s0, es, m, k);
    }
  }

  lemma OrderedTail(t0: real, es: seq<Event>, i: nat)
    requires InOrder(t0, es) && i < |es|
    ensures InOrder(es[i].now, es[i + 1..])
  {
    var tail := es[i + 1..];
    assert forall j :: 0 <= j < |tail| ==> tail[j] == es[i + 1 + j];
  }

  lemma NoAdvance(s: Bbr)
    ensures Advances(s, []) == 0
  {
  }
}
