/** BBR congestion control (congestion.rs): the model of the state machine and the
    objects that implement it. Times are seconds on the monotonic clock. */
module Congestion {
  import opened Numbers

  const STARTUP_CWND_GAIN: nonneg := 2.0
  const STARTUP_PACING_GAIN: nonneg := 2.77
  const PROBE_BW_GAINS: seq<nonneg> := [1.25, 0.75, 1.0, 1.0, 1.0, 1.0, 1.0, 1.0]
  const PROBE_BW_CYCLE_LEN := 8.0
  const PROBE_RTT_DURATION := 0.2
  const PROBE_RTT_CWND_GAIN: nonneg := 0.5
  const MIN_CWND: nat := 5600
  const MAX_CWND: nat := 1048576
  const INITIAL_CWND: nat := 14000
  const MIN_RTT_FILTER_LEN := 10.0
  const BW_FILTER_LEN := 2.0
  const INITIAL_RTT: nonneg := 1.0
  const PACKET_SIZE: nat := 1400

  // ---------------------------------------------------------------- bandwidth filter

  datatype Sample = Sample(bw: Float, time: real)

  datatype Filter = Filter(samples: seq<Sample>, maxBw: Float)

  const EMPTY_FILTER := Filter([], Fin(0.0))

  /** Drop samples from the front while they are older than `cutoff`. */
  function DropOld(s: seq<Sample>, cutoff: real): seq<Sample> {
    if s != [] && s[0].time < cutoff then DropOld(s[1..], cutoff) else s
  }

  function MaxOf(s: seq<Sample>): Float {
    if s == [] then Fin(0.0) else FMax(MaxOf(s[..|s| - 1]), s[|s| - 1].bw)
  }

  function UpdateFilter(f: Filter, bw: Float, now: real, len: real): Filter {
    var kept := DropOld(f.samples + [Sample(bw, now)], now - len);
    Filter(kept, MaxOf(kept))
  }

  /** The fold over the retained samples. */
  method FoldMax(samples: seq<Sample>) returns (m: Float)
    ensures m == MaxOf(samples)
    ensures m != NaN && Le(Fin(0.0), m)
    ensures forall i :: 0 <= i < |samples| && samples[i].bw != NaN ==> Le(samples[i].bw, m)
  {
    m := Fin(0.0);
    for i := 0 to |samples|
      invariant m == MaxOf(samples[..i]) && m != NaN && Le(Fin(0.0), m)
      invariant forall j :: 0 <= j < i && samples[j].bw != NaN ==> Le(samples[j].bw, m)
    {
      assert samples[..i + 1][..i] == samples[..i];
      m := FMax(m, samples[i].bw);
    }
    assert samples[..|samples|] == samples;
  }

  class BandwidthFilter {
    var samples: seq<Sample>
    var maxBw: Float

    ghost function Model(): Filter
      reads this
    {
      Filter(samples, maxBw)
    }

    constructor ()
      ensures Model() == EMPTY_FILTER
    {
      samples, maxBw := [], Fin(0.0);
    }

    method Update(bw: Float, now: real, filterLen: real)
      modifies this
      ensures Model() == UpdateFilter(old(Model()), bw, now, filterLen)
    {
      samples := samples + [Sample(bw, now)];
      var cutoff := now - filterLen;
      ghost var all := samples;
      assert all == old(Model()).samples + [Sample(bw, now)];
      while samples != [] && samples[0].time < cutoff
        invariant DropOld(samples, cutoff) == DropOld(all, cutoff)
        decreases |samples|
      {
        samples := samples[1..];
      }
      assert samples == DropOld(all, cutoff);
      maxBw := FoldMax(samples);
    }
  }

  // ---------------------------------------------------------------- the state machine

  datatype Phase = Startup | Drain | ProbeBw | ProbeRtt

  datatype Bbr = Bbr(
    phase: Phase,
    filter: Filter,
    minRtt: nonneg,
    minRttStamp: real,
    pacingRate: Float,
    cwnd: nat,
    cycleIndex: nat,
    cycleStart: real,
    packetsSent: nat,
    packetsAcked: nat,
    stateStart: real)

  function Init(now: real): Bbr {
    Bbr(Startup, EMPTY_FILTER, INITIAL_RTT, now, Fin(0.0), INITIAL_CWND, 0, now, 0, 0, now)
  }

  function Clamp(n: nat): (c: nat)
    ensures MIN_CWND <= c <= MAX_CWND
    ensures MIN_CWND <= n <= MAX_CWND ==> c == n
  {
    Min(Max(n, MIN_CWND), MAX_CWND)
  }

  function Gain(cycleIndex: nat): nonneg {
    PROBE_BW_GAINS[cycleIndex % 8]
  }

  /** Pacing rate as a function of the phase and the bandwidth estimate. */
  function RateFor(phase: Phase, cycleIndex: nat, bw: Float): Float {
    match phase
    case Startup => Mul(Fin(STARTUP_PACING_GAIN), bw)
    case Drain => Div(bw, Fin(STARTUP_PACING_GAIN))
    case ProbeBw => Mul(Fin(Gain(cycleIndex)), bw)
    case ProbeRtt => bw
  }

  /** Congestion window as a function of the phase and the path model. */
  function WindowFor(phase: Phase, cycleIndex: nat, bw: Float, rtt: nonneg): nat {
    match phase
    case Startup => Clamp(ToUsize(Mul(Fin(STARTUP_CWND_GAIN), Mul(bw, Fin(rtt)))))
    case Drain => Clamp(ToUsize(Mul(bw, Fin(rtt))))
    case ProbeBw => Clamp(ToUsize(Mul(Mul(Fin(Gain(cycleIndex)), bw), Fin(rtt))))
    case ProbeRtt => Clamp(ToUsize(Mul(Mul(Fin(PROBE_RTT_CWND_GAIN), bw), Fin(rtt))))
  }

  function UpdateControl(s: Bbr): Bbr {
    s.(pacingRate := RateFor(s.phase, s.cycleIndex, s.filter.maxBw),
       cwnd := WindowFor(s.phase, s.cycleIndex, s.filter.maxBw, s.minRtt))
  }

  function UpdateModel(s: Bbr, bytesAcked: nat, rtt: nonneg, now: real): Bbr {
    var renew := rtt < s.minRtt || now - s.minRttStamp > MIN_RTT_FILTER_LEN;
    s.(minRtt := if renew then rtt else s.minRtt,
       minRttStamp := if renew then now else s.minRttStamp,
       filter := UpdateFilter(s.filter, Div(Fin(bytesAcked as real), Fin(rtt)), now, BW_FILTER_LEN))
  }

  function AdvanceCycle(s: Bbr, now: real): Bbr {
    if s.phase == ProbeBw && now - s.cycleStart >= PROBE_BW_CYCLE_LEN / 8.0
    then s.(cycleIndex := (s.cycleIndex + 1) % 8, cycleStart := now)
    else s
  }

  predicate StartupDone(s: Bbr) {
    s.packetsAcked > 3 * (s.cwnd / PACKET_SIZE)
  }

  predicate DrainDone(s: Bbr, bytesInFlight: nat) {
    bytesInFlight <= ToUsize(Mul(s.filter.maxBw, Fin(s.minRtt)))
  }

  function EnterProbeBw(s: Bbr, now: real): Bbr {
    s.(phase := ProbeBw, stateStart := now, cycleStart := now, cycleIndex := 0)
  }

  function UpdateState(s: Bbr, bytesInFlight: nat, now: real): Bbr {
    match s.phase
    case Startup => if StartupDone(s) then s.(phase := Drain, stateStart := now) else s
    case Drain => if DrainDone(s, bytesInFlight) then EnterProbeBw(s, now) else s
    case ProbeBw =>
      AdvanceCycle(if now - s.minRttStamp > MIN_RTT_FILTER_LEN
          then s.(phase := ProbeRtt, stateStart := now) else s, now)
    case ProbeRtt => if now - s.stateStart >= PROBE_RTT_DURATION then EnterProbeBw(s, now) else s
  }

  /** State first, control parameters second; in-flight bytes are not tracked here. */
  function Settle(s: Bbr, now: real): Bbr {
    UpdateControl(UpdateState(s, 0, now))
  }

  function CountSent(s: Bbr): Bbr {
    s.(packetsSent := s.packetsSent + 1)
  }

  function CountAcked(s: Bbr): Bbr {
    s.(packetsAcked := s.packetsAcked + 1)
  }

  function OnSent(s: Bbr, now: real): Bbr {
    Settle(CountSent(s), now)
  }

  function OnAck(s: Bbr, bytes: nat, rtt: nonneg, now: real): Bbr {
    Settle(UpdateModel(CountAcked(s), bytes, rtt, now), now)
  }

  function OnLost(s: Bbr, now: real): Bbr {
    Settle(s, now)
  }

  /** What drives the controller. */
  datatype Event =
    | Sent(now: real)
    | Acked(bytes: nat, rtt: nonneg, now: real)
    | Lost(now: real)

  function Step(s: Bbr, e: Event): Bbr {
    match e
    case Sent(now) => OnSent(s, now)
    case Acked(bytes, rtt, now) => OnAck(s, bytes, rtt, now)
    case Lost(now) => OnLost(s, now)
  }

  function Run(s: Bbr, es: seq<Event>): Bbr {
    if es == [] then s else Step(Run(s, es[..|es| - 1]), es[|es| - 1])
  }

  // ---------------------------------------------------------------- the object

  class BbrCongestionControl {
    var state: Phase
    const maxBw: BandwidthFilter
    var minRtt: nonneg
    var minRttStamp: real
    var pacingRate: Float
    var cwnd: nat
    var cycleIndex: nat
    var cycleStart: real
    var packetsSent: nat
    var packetsAcked: nat
    var stateStart: real

    ghost function Model(): Bbr
      reads this, maxBw
    {
      Bbr(state, maxBw.Model(), minRtt, minRttStamp, pacingRate, cwnd, cycleIndex, cycleStart,
          packetsSent, packetsAcked, stateStart)
    }

    constructor (now: real)
      ensures Model() == Init(now) && fresh(maxBw)
    {
      maxBw := new BandwidthFilter();
      state := Startup;
      minRtt := INITIAL_RTT;
      minRttStamp := now;
      pacingRate := Fin(0.0);
      cwnd := INITIAL_CWND;
      cycleIndex := 0;
      cycleStart := now;
      packetsSent := 0;
      packetsAcked := 0;
      stateStart := now;
    }

    method UpdatePathModel(bytesAcked: nat, rtt: nonneg, now: real)
      modifies this, maxBw
      ensures Model() == UpdateModel(old(Model()), bytesAcked, rtt, now)
    {
      if rtt < minRtt || now - minRttStamp > MIN_RTT_FILTER_LEN {
        minRtt := rtt;
        minRttStamp := now;
      }
      var deliveryRate := Div(Fin(bytesAcked as real), Fin(rtt));
      maxBw.Update(deliveryRate, now, BW_FILTER_LEN);
    }

    method UpdateControlParameters()
      modifies this
      ensures Model() == UpdateControl(old(Model()))
    {
      match state {
        case Startup =>
          pacingRate := Mul(Fin(STARTUP_PACING_GAIN), maxBw.maxBw);
          cwnd := ToUsize(Mul(Fin(STARTUP_CWND_GAIN), Mul(maxBw.maxBw, Fin(minRtt))));
          cwnd := Min(Max(cwnd, MIN_CWND), MAX_CWND);
        case Drain =>
          pacingRate := Div(maxBw.maxBw, Fin(STARTUP_PACING_GAIN));
          cwnd := ToUsize(Mul(maxBw.maxBw, Fin(minRtt)));
          cwnd := Min(Max(cwnd, MIN_CWND), MAX_CWND);
        case ProbeBw =>
          var gain := Gain(cycleIndex);
          pacingRate := Mul(Fin(gain), maxBw.maxBw);
          cwnd := Min(Max(ToUsize(Mul(Mul(Fin(gain), maxBw.maxBw), Fin(minRtt))), MIN_CWND), MAX_CWND);
        case ProbeRtt =>
          pacingRate := maxBw.maxBw;
          cwnd := ToUsize(Mul(Mul(Fin(PROBE_RTT_CWND_GAIN), maxBw.maxBw), Fin(minRtt)));
          cwnd := Min(Max(cwnd, MIN_CWND), MAX_CWND);
      }
    }

    method AdvanceCyclePhase(now: real)
      modifies this
      ensures Model() == AdvanceCycle(old(Model()), now)
    {
      if state != ProbeBw {
        return;
      }
      if now - cycleStart >= PROBE_BW_CYCLE_LEN / |PROBE_BW_GAINS| as real {
        cycleIndex := (cycleIndex + 1) % |PROBE_BW_GAINS|;
        cycleStart := now;
      }
    }

    method UpdatePhase(bytesInFlight: nat, now: real)
      modifies this
      ensures Model() == UpdateState(old(Model()), bytesInFlight, now)
    {
      match state {
        case Startup =>
          if packetsAcked > 3 * (cwnd / PACKET_SIZE) {
            state := Drain;
            stateStart := now;
          }
        case Drain =>
          var bdp := ToUsize(Mul(maxBw.maxBw, Fin(minRtt)));
          if bytesInFlight <= bdp {
            state := ProbeBw;
            stateStart := now;
            cycleStart := now;
            cycleIndex := 0;
          }
        case ProbeBw =>
          if now - minRttStamp > MIN_RTT_FILTER_LEN {
            state := ProbeRtt;
            stateStart := now;
          }
          AdvanceCyclePhase(now);
        case ProbeRtt =>
          if now - stateStart >= PROBE_RTT_DURATION {
            state := ProbeBw;
            stateStart := now;
            cycleStart := now;
            cycleIndex := 0;
          }
      }
    }

    /** The common tail of the three event handlers. */
    method SettleAt(now: real)
      modifies this
      ensures Model() == Settle(old(Model()), now)
    {
      UpdatePhase(0, now);
      UpdateControlParameters();
    }

    method OnPacketSent(now: real)
      modifies this
      ensures Model() == OnSent(old(Model()), now)
    {
      packetsSent := packetsSent + 1;
      assert Model() == CountSent(old(Model()));
      SettleAt(now);
    }

    method OnAckReceived(bytesAcked: nat, rtt: nonneg, now: real)
      modifies this, maxBw
      ensures Model() == OnAck(old(Model()), bytesAcked, rtt, now)
    {
      packetsAcked := packetsAcked + 1;
      assert Model() == CountAcked(old(Model()));
      UpdatePathModel(bytesAcked, rtt, now);
      SettleAt(now);
    }

    method OnPacketLost(now: real)
      modifies this
      ensures Model() == OnLost(old(Model()), now)
    {
      SettleAt(now);
    }

    predicate CanSend(bytesInFlight: nat): (r: bool)
      reads this
      ensures r <==> bytesInFlight < cwnd
    {
      bytesInFlight < cwnd
    }
  }
}
