/** The pacer (pacing.rs): when each packet may leave. Times are seconds on the
    monotonic clock, rates bytes per second. */
module Pacing {
  import opened Numbers

  const MIN_RATE: nonneg := 1000.0

  /** A rate after flooring at 1000 bytes per second; it may still be infinite. */
  type Rate = r: Float | Le(Fin(1000.0), r) witness Fin(1000.0)

  function Floored(rate: Float): (r: Rate)
    ensures r == rate || (r == Fin(MIN_RATE) && !Le(r, rate))
  {
    FMax(rate, Fin(MIN_RATE))
  }

  datatype State = State(rate: Rate, last: Option<real>, next: Option<real>)

  function Init(rate: Float): State {
    State(Floored(rate), None, None)
  }

  /** A fresh pacer runs at the rate it is given where that is at least 1000 bytes per second,
      at 1000 otherwise, and has nothing scheduled. */
  lemma FreshPacer(rate: Float)
    ensures Le(Fin(1000.0), rate) ==> Init(rate).rate == rate
    ensures !Le(Fin(1000.0), rate) ==> Init(rate).rate == Fin(1000.0)
    ensures Init(rate).last == Init(rate).next == None
  {
  }

  /** How long a packet occupies the link at the given rate. */
  function SendDuration(size: nat, rate: Rate): (d: nonneg)
    ensures rate.Fin? ==> d * rate.value == size as real
    ensures rate.Inf? ==> d == 0.0
    ensures d * MIN_RATE <= size as real
  {
    match rate
    case Fin(r) =>
      var d := size as real / r;
      QuotientBounds(size as real, r, d);
      d
    case Inf => 0.0
  }

  lemma QuotientBounds(x: real, r: real, d: real)
    requires x >= 0.0 && r >= 1000.0 && d == x / r
    ensures d * r == x && d >= 0.0 && d * 1000.0 <= x
  {
    assert d * r == x;
    assert d >= 0.0;
    assert d * (r - 1000.0) >= 0.0;
  }

  datatype Slot = Slot(state: State, wait: Option<real>)

  function Schedule(s: State, size: nat, now: real): Slot {
    var d := SendDuration(size, s.rate);
    match s.last
    case None => Slot(State(s.rate, Some(now), Some(now + d)), None)
    case Some(last) =>
      var ideal := last + d;
      if now >= ideal then Slot(State(s.rate, Some(now), Some(now + d)), None)
      else Slot(State(s.rate, Some(ideal), Some(ideal + d)), Some(ideal - now))
  }

  // ---------------------------------------------------------------- the schedule alone

  /** A call with its packet already turned into a duration. */
  datatype Hop = Hop(now: real, d: nonneg)

  /** The scheduled time after one more hop. */
  function Advance(last: Option<real>, h: Hop): (t: real) {
    if last.None? || h.now >= last.value + h.d then h.now else last.value + h.d
  }

  function Line(last: Option<real>, hops: seq<Hop>): Option<real> {
    if hops == [] then last
    else Some(Advance(Line(last, hops[..|hops| - 1]), hops[|hops| - 1]))
  }

  /** Time the hops from index `from` on take to send. */
  function Durations(hops: seq<Hop>, from: nat): (d: nonneg)
    requires from <= |hops|
    decreases |hops| - from
  {
    if from == |hops| then 0.0 else hops[from].d + Durations(hops, from + 1)
  }

  lemma {:induction false} DurationsExtend(hops: seq<Hop>, h: Hop, from: nat)
    requires from <= |hops|
    ensures Durations(hops + [h], from) == Durations(hops, from) + h.d
    decreases |hops| - from
  {
    if from == |hops| {
      assert Durations(hops + [h], from + 1) == 0.0;
    } else {
      DurationsExtend(hops, h, from + 1);
    }
  }

  /** When everything is sent if hop `j` starts at its call and all later ones follow it back
      to back, up to the start of the last. */
  function Finish(hops: seq<Hop>, j: nat): real
    requires j < |hops|
  {
    hops[j].now + Durations(hops, j + 1)
  }

  /** `t` is the largest, over all hops, of the time of the call plus the durations of
      everything after it. */
  ghost predicate IsSchedule(t: real, hops: seq<Hop>) {
    && (forall j :: 0 <= j < |hops| ==> Finish(hops, j) <= t)
    && (exists j :: 0 <= j < |hops| && Finish(hops, j) == t)
  }

  lemma FinishExtends(hops: seq<Hop>, h: Hop, j: nat)
    requires j < |hops|
    ensures Finish(hops + [h], j) == Finish(hops, j) + h.d
  {
    DurationsExtend(hops, h, j + 1);
  }

  lemma FinishLast(hops: seq<Hop>, h: Hop)
    ensures Finish(hops + [h], |hops|) == h.now
  {
  }

  lemma ScheduleExtends(t: real, hops: seq<Hop>, h: Hop)
    requires IsSchedule(t, hops)
    ensures IsSchedule(Advance(Some(t), h), hops + [h])
  {
    hide Finish;
    var n, all := |hops|, hops + [h];
    forall j | 0 <= j < n
      ensures Finish(all, j) == Finish(hops, j) + h.d
    {
      FinishExtends(hops, h, j);
    }
    FinishLast(hops, h);
    var j :| 0 <= j < n && Finish(hops, j) == t;
    assert Finish(all, j) == t + h.d;
  }

  lemma {:induction false} LineIsSchedule(hops: seq<Hop>)
    requires hops != []
    ensures Line(None, hops).Some? && IsSchedule(Line(None, hops).value, hops)
  {
    var init, h := hops[..|hops| - 1], hops[|hops| - 1];
    assert hops == init + [h];
    if init == [] {
      FinishLast(init, h);
    } else {
      LineIsSchedule(init);
      ScheduleExtends(Line(None, init).value, init, h);
    }
  }

  /** The closed form determines the schedule. */
  lemma ScheduleUnique(t: real, u: real, hops: seq<Hop>)
    requires IsSchedule(t, hops) && IsSchedule(u, hops)
    ensures t == u
  {
    hide Finish;
    var j :| 0 <= j < |hops| && Finish(hops, j) == t;
    var k :| 0 <= k < |hops| && Finish(hops, k) == u;
  }

  /** Every hop starts no later than the end of the slot before it. */
  ghost predicate Early(last: real, hops: seq<Hop>) {
    forall i :: 0 <= i < |hops| ==>
      Line(Some(last), hops[..i]).Some? && hops[i].now <= Line(Some(last), hops[..i]).value + hops[i].d
  }

  /** The schedule never runs faster than the durations add up to, and no slower either
      when every hop is early. */
  lemma {:induction false} LineAdvance(last: real, hops: seq<Hop>)
    ensures Line(Some(last), hops).Some?
    ensures Line(Some(last), hops).value - last >= Durations(hops, 0)
    ensures Early(last, hops) ==> Line(Some(last), hops).value - last == Durations(hops, 0)
  {
    if hops != [] {
      var n := |hops| - 1;
      LineAdvance(last, hops[..n]);
      DurationsExtend(hops[..n], hops[n], 0);
      assert hops[..n] + [hops[n]] == hops;
      assert Early(last, hops) ==> Early(last, hops[..n]) by {
        assert forall i :: 0 <= i < n ==> hops[..n][..i] == hops[..i];
      }
    }
  }

  // ---------------------------------------------------------------- runs of the pacer

  /** One use of the pacer: the rate in force, the packet, and the clock reading. */
  datatype Call = Call(rate: Rate, size: nat, now: real)

  function Run(s: State, calls: seq<Call>): State {
    if calls == [] then s
    else
      var c := calls[|calls| - 1];
      Schedule(Run(s, calls[..|calls| - 1]).(rate := c.rate), c.size, c.now).state
  }

  function HopOf(c: Call): Hop {
    Hop(c.now, SendDuration(c.size, c.rate))
  }

  function Hops(calls: seq<Call>): (h: seq<Hop>)
    ensures |h| == |calls|
  {
    if calls == [] then [] else Hops(calls[..|calls| - 1]) + [HopOf(calls[|calls| - 1])]
  }

  function Bytes(calls: seq<Call>): nat {
    if calls == [] then 0 else Bytes(calls[..|calls| - 1]) + calls[|calls| - 1].size
  }

  lemma ScheduleIsAdvance(s: State, c: Call)
    ensures Schedule(s.(rate := c.rate), c.size, c.now).state.last == Some(Advance(s.last, HopOf(c)))
    ensures Schedule(s.(rate := c.rate), c.size, c.now).state.next == Some(Advance(s.last, HopOf(c)) + HopOf(c).d)
  {
  }

  lemma {:induction false} RunIsLine(s: State, calls: seq<Call>)
    ensures Run(s, calls).last == Line(s.last, Hops(calls))
  {
    if calls != [] {
      var n := |calls| - 1;
      RunIsLine(s, calls[..n]);
      ScheduleIsAdvance(Run(s, calls[..n]), calls[n]);
      assert Hops(calls)[..n] == Hops(calls[..n]);
    }
  }

  /** Closed form of the pacer: starting fresh, whatever the calls, the last scheduled
      time is max over j of (now_j + sum of the durations after j), and the recorded next
      time is one duration later. */
  lemma ClosedForm(rate: Float, calls: seq<Call>)
    requires calls != []
    ensures var s := Run(Init(rate), calls);
      && s.last.Some? && IsSchedule(s.last.value, Hops(calls))
      && s.next == Some(s.last.value + HopOf(calls[|calls| - 1]).d)
  {
    hide SendDuration, Schedule, IsSchedule, Line, Hops;
    RunIsLine(Init(rate), calls);
    LineIsSchedule(Hops(calls));
    ScheduleIsAdvance(Run(Init(rate), calls[..|calls| - 1]), calls[|calls| - 1]);
  }

  ghost predicate RatesAtMost(calls: seq<Call>, limit: nonneg) {
    forall i :: 0 <= i < |calls| ==> Le(calls[i].rate, Fin(limit))
  }

  /** Bytes that `limit` carries during the hops. */
  function Capacity(hops: seq<Hop>, limit: nonneg): real {
    if hops == [] then 0.0 else Capacity(hops[..|hops| - 1], limit) + limit * hops[|hops| - 1].d
  }

  lemma CapacityExtend(hops: seq<Hop>, h: Hop, limit: nonneg)
    ensures Capacity(hops + [h], limit) == Capacity(hops, limit) + limit * h.d
  {
    assert (hops + [h])[..|hops|] == hops;
  }

  lemma {:induction false} CapacityIsProduct(hops: seq<Hop>, limit: nonneg)
    ensures Capacity(hops, limit) == limit * Durations(hops, 0)
  {
    if hops != [] {
      hide Capacity, Durations;
      var init, h := hops[..|hops| - 1], hops[|hops| - 1];
      CapacityIsProduct(init, limit);
      assert hops == init + [h];
      CapacityExtend(init, h, limit);
      DurationsExtend(init, h, 0);
      JoinProducts(limit, Durations(init, 0), h.d, Durations(hops, 0));
    }
  }

  lemma JoinProducts(k: real, a: real, b: real, total: real)
    requires total == a + b
    ensures k * a + k * b == k * total
  {
  }

  lemma {:induction false} BytesFitCapacity(calls: seq<Call>, hops: seq<Hop>, limit: nonneg)
    requires |calls| == |hops|
    requires forall i :: 0 <= i < |calls| ==> calls[i].size as real <= limit * hops[i].d
    ensures Bytes(calls) as real <= Capacity(hops, limit)
    ensures (forall i :: 0 <= i < |calls| ==> calls[i].size as real == limit * hops[i].d)
      ==> Bytes(calls) as real == Capacity(hops, limit)
  {
    if calls != [] {
      var n := |calls| - 1;
      BytesFitCapacity(calls[..n], hops[..n], limit);
    }
  }

  lemma SizeFitsDuration(c: Call, limit: nonneg)
    requires Le(c.rate, Fin(limit))
    ensures c.size as real <= limit * HopOf(c).d
    ensures c.rate == Fin(limit) ==> c.size as real == limit * HopOf(c).d
  {
    assert HopOf(c).d * (limit - c.rate.value) >= 0.0;
  }

  lemma {:induction false} HopAt(calls: seq<Call>, i: nat)
    requires i < |calls|
    ensures Hops(calls)[i] == HopOf(calls[i])
  {
    if i < |calls| - 1 {
      HopAt(calls[..|calls| - 1], i);
    }
  }

  lemma FitsAt(calls: seq<Call>, i: nat, limit: nonneg)
    requires RatesAtMost(calls, limit) && i < |calls|
    ensures calls[i].size as real <= limit * Hops(calls)[i].d
    ensures calls[i].rate == Fin(limit) ==> calls[i].size as real == limit * Hops(calls)[i].d
  {
    hide SendDuration, Hops, HopOf;
    HopAt(calls, i);
    SizeFitsDuration(calls[i], limit);
  }

  lemma BytesFit(calls: seq<Call>, limit: nonneg)
    requires RatesAtMost(calls, limit)
    ensures Bytes(calls) as real <= Capacity(Hops(calls), limit)
    ensures (forall i :: 0 <= i < |calls| ==> calls[i].rate == Fin(limit))
      ==> Bytes(calls) as real == Capacity(Hops(calls), limit)
  {
    hide SendDuration, Hops, HopOf;
    forall i | 0 <= i < |calls|
      ensures calls[i].size as real <= limit * Hops(calls)[i].d
      ensures calls[i].rate == Fin(limit) ==> calls[i].size as real == limit * Hops(calls)[i].d
    {
      FitsAt(calls, i, limit);
    }
    BytesFitCapacity(calls, Hops(calls), limit);
  }

  lemma Scale(k: nonneg, a: real, b: real)
    requires a <= b
    ensures k * a <= k * b
    ensures a == b ==> k * a == k * b
  {
    assert k * (b - a) >= 0.0;
  }

  lemma Chain(limit: nonneg, total: real, gap: real, cap: real, sent: real)
    requires sent <= cap && cap == limit * total && total <= gap
    ensures sent <= limit * gap
    ensures sent == cap && total == gap ==> sent == limit * gap
  {
    Scale(limit, total, gap);
  }

  lemma LineCapacity(last: real, hops: seq<Hop>, limit: nonneg, sent: real, gap: real)
    requires sent <= Capacity(hops, limit) && Line(Some(last), hops) == Some(last + gap)
    ensures sent <= limit * gap
    ensures sent == Capacity(hops, limit) && Early(last, hops) ==> sent == limit * gap
  {
    hide Line, Capacity, Durations, Early;
    LineAdvance(last, hops);
    CapacityIsProduct(hops, limit);
    Chain(limit, Durations(hops, 0), gap, Capacity(hops, limit), sent);
  }

  /** Rate bound over any stretch of calls after a first packet: if no rate exceeds
      `limit`, the bytes scheduled are at most `limit` times the scheduled time elapsed;
      and exactly that for a sender that is always early at the constant rate `limit`. */
  lemma RateBound(s: State, calls: seq<Call>, limit: nonneg, elapsed: real)
    requires s.last.Some? && RatesAtMost(calls, limit)
    requires Run(s, calls).last == Some(s.last.value + elapsed)
    ensures Bytes(calls) as real <= limit * elapsed
    ensures Early(s.last.value, Hops(calls)) && (forall i :: 0 <= i < |calls| ==> calls[i].rate == Fin(limit))
        ==> Bytes(calls) as real == limit * elapsed
  {
    RunIsLine(s, calls);
    BytesFit(calls, limit);
    LineCapacity(s.last.value, Hops(calls), limit, Bytes(calls) as real, elapsed);
  }

  /** A caller that waits as told before calling again (so the clock has reached the
      previous slot) is never told to wait longer than its own packet takes, hence never
      longer than size / 1000 seconds; and it is told to wait exactly when it is early. */
  lemma WaitIsShort(s: State, size: nat, now: real)
    requires s.last.Some? ==> now >= s.last.value
    ensures var w := Schedule(s, size, now).wait;
      && (w.Some? ==> 0.0 < w.value <= SendDuration(size, s.rate) && w.value * 1000.0 <= size as real)
      && (w.Some? <==> s.last.Some? && now < s.last.value + SendDuration(size, s.rate))
      && (w.Some? ==> Schedule(s, size, now).state.last == Some(now + w.value))
      && (w.None? ==> Schedule(s, size, now).state.last == Some(now))
  {
    var d := SendDuration(size, s.rate);
    var w := Schedule(s, size, now).wait;
    if w.Some? {
      assert w.value <= d;
    }
  }

  /** How long a wait lasts; being told nothing is not waiting. */
  function WaitTime(wait: Option<real>): real {
    if wait.Some? then wait.value else 0.0
  }

  /** What call `i` of a run is told. */
  function WaitAt(s: State, calls: seq<Call>, i: nat): real
    requires i < |calls|
  {
    WaitTime(Schedule(Run(s, calls[..i]).(rate := calls[i].rate), calls[i].size, calls[i].now).wait)
  }

  /** The caller waits as told each time: the clock of every call is at least that of the
      call before plus the wait it was told. */
  ghost predicate HonoursWaits(s: State, calls: seq<Call>) {
    forall i :: 0 <= i < |calls| - 1 ==> calls[i].now + WaitAt(s, calls, i) <= calls[i + 1].now
  }

  /** The scheduled time is the moment the wait is over. */
  lemma SlotAfterWait(s: State, size: nat, now: real)
    ensures Schedule(s, size, now).state.last == Some(now + WaitTime(Schedule(s, size, now).wait))
  {
    hide SendDuration;
  }

  /** In every run of a caller that honours its waits, no wait is longer than the packet takes
      to send, hence none is longer than size / 1000 seconds: delays never accumulate. */
  lemma HonouredWaitsAreShort(rate: Float, calls: seq<Call>, i: nat)
    requires i < |calls| && HonoursWaits(Init(rate), calls)
    ensures var w := WaitAt(Init(rate), calls, i);
      && 0.0 <= w <= SendDuration(calls[i].size, calls[i].rate)
      && w * 1000.0 <= calls[i].size as real
  {
    hide SendDuration, Schedule;
    var c, before := calls[i], Run(Init(rate), calls[..i]).(rate := calls[i].rate);
    if i > 0 {
      var p := calls[i - 1];
      SlotAfterWait(Run(Init(rate), calls[..i - 1]).(rate := p.rate), p.size, p.now);
      assert calls[..i][..i - 1] == calls[..i - 1] && calls[..i][i - 1] == p;
      assert p.now + WaitAt(Init(rate), calls, i - 1) <= calls[i - 1 + 1].now;
    }
    WaitIsShort(before, c.size, c.now);
  }

  /** Without honouring them waits do add up: `n` packets asked for at once are scheduled
      one behind the other, the last one after all the packets before it. */
  lemma {:induction false} IgnoredWaitsAddUp(calls: seq<Call>, rate: Float, size: nat, r: Rate, total: real)
    requires calls != [] && forall i :: 0 <= i < |calls| ==> calls[i] == Call(r, size, 0.0)
    requires total == (|calls| - 1) as real * SendDuration(size, r)
    ensures Run(Init(rate), calls).last == Some(total)
  {
    hide SendDuration, Schedule, Init;
    var n, d := |calls| - 1, SendDuration(size, r);
    if n == 0 {
      FirstAtOnce(rate, calls);
      NoDuration(d, total);
    } else {
      OneMore((n - 1) as real, n as real, d, total);
      IgnoredWaitsAddUp(calls[..n], rate, size, r, total - d);
      AtOnce(Run(Init(rate), calls[..n]).(rate := r), size);
    }
  }

  lemma NoDuration(d: real, total: real)
    requires total == 0.0 * d
    ensures total == 0.0
  {
  }

  lemma FirstAtOnce(rate: Float, calls: seq<Call>)
    requires |calls| == 1 && calls[0].now == 0.0
    ensures Run(Init(rate), calls).last == Some(0.0)
  {
    hide SendDuration;
    assert calls[..0] == [];
  }

  lemma AtOnce(s: State, size: nat)
    requires s.last.Some? && s.last.value >= 0.0
    ensures Schedule(s, size, 0.0).state.last == Some(s.last.value + SendDuration(size, s.rate))
  {
    hide SendDuration;
  }

  lemma OneMore(m: real, n: real, d: nonneg, total: real)
    requires n == m + 1.0 && m >= 0.0 && total == n * d
    ensures total - d == m * d && total - d >= 0.0
  {
  }

  // ---------------------------------------------------------------- the object

  class Pacer {
    var sendingRate: Rate
    var lastSendTime: Option<real>
    var nextSendTime: Option<real>

    ghost function Model(): State
      reads this
    {
      State(sendingRate, lastSendTime, nextSendTime)
    }

    constructor (initialRate: Float)
      ensures Model() == Init(initialRate)
    {
      sendingRate := FMax(initialRate, Fin(MIN_RATE));
      lastSendTime := None;
      nextSendTime := None;
    }

    method UpdateRate(rate: Float)
      modifies this
      ensures Model() == old(Model()).(rate := Floored(rate))
    {
      sendingRate := FMax(rate, Fin(MIN_RATE));
    }

    method ScheduleNextSend(packetSize: nat, now: real) returns (wait: Option<real>)
      modifies this
      ensures Slot(Model(), wait) == Schedule(old(Model()), packetSize, now)
    {
      var sendDuration := SendDuration(packetSize, sendingRate);
      match lastSendTime {
        case None =>
          lastSendTime := Some(now);
          nextSendTime := Some(now + sendDuration);
          return None;
        case Some(lastSend) =>
          var idealSendTime := lastSend + sendDuration;
          if now >= idealSendTime {
            lastSendTime := Some(now);
            nextSendTime := Some(now + sendDuration);
            return None;
          } else {
            var waitTime := idealSendTime - now;
            lastSendTime := Some(idealSendTime);
            nextSendTime := Some(idealSendTime + sendDuration);
            return Some(waitTime);
          }
      }
    }
  }
}
