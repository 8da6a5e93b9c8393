/** How the sender drives its controller and its pacer, and the bounds that follow for
    whole uploads. */
module ClientControl {
  import opened Numbers
  import opened Wire
  import opened Client
  import opened ClientRuns
  import Recovery
  import Pacing
  import Congestion
  import CongestionProofs

  // ---------------------------------------------------------------- the controller's events

  function AckedEvents(acked: seq<Recovery.InFlight>, rtt: nonneg, now: real): (es: seq<Congestion.Event>)
    ensures |es| == |acked|
    ensures forall e :: e in es ==> e.Acked? && e.now == now
  {
    if acked == [] then []
    else AckedEvents(acked[..|acked| - 1], rtt, now) + [Congestion.Acked(acked[|acked| - 1].size, rtt, now)]
  }

  function LossEvents(n: nat, now: real): seq<Congestion.Event> {
    seq(n, _ => Congestion.Lost(now))
  }

  /** How many lost packets are looked at before a send fails. */
  function Handled(c: Client, lost: seq<Recovery.InFlight>, env: AckEnv): nat {
    if lost == [] then 0
    else if Resend(c, lost[..|lost| - 1], env).failed then Handled(c, lost[..|lost| - 1], env)
    else |lost|
  }

  /** The controller events one call produces, in order. */
  function EventsOf(c: Client, call: Call): seq<Congestion.Event> {
    match call
    case SendCall(_, env) => if env.ok then [Congestion.Sent(env.sentNow)] else []
    case AckCall(data, env) => if Decode(data).None? then [] else HeaderEvents(c, Decode(data).value.header, env)
  }

  function HeaderEvents(c: Client, h: Header, env: AckEnv): seq<Congestion.Event> {
    var a := Recovery.OnAck(c.recovery, h.latestAck, env.ackNow);
    var rtt := RttSample(h.ackTimestampEcho, env.rttNow);
    var c1 := CountAcks(TakeAck(c, h, a.state), a.acked, rtt, env.now);
    AckedEvents(a.acked, rtt, env.now) + LossEvents(Handled(c1, a.lost, env), env.now)
  }

  function Events(c: Client, calls: seq<Call>): seq<Congestion.Event> {
    if calls == [] then []
    else Events(c, calls[..|calls| - 1]) + EventsOf(Run(c, calls[..|calls| - 1]), calls[|calls| - 1])
  }

  lemma {:induction false} CountAcksController(c: Client, acked: seq<Recovery.InFlight>, rtt: nonneg, now: real)
    ensures CountAcks(c, acked, rtt, now).bbr == Congestion.Run(c.bbr, AckedEvents(acked, rtt, now))
  {
    hide Congestion.OnAck;
    if acked != [] {
      var n := |acked| - 1;
      CountAcksController(c, acked[..n], rtt, now);
      var es := AckedEvents(acked, rtt, now);
      assert es[..|es| - 1] == AckedEvents(acked[..n], rtt, now);
    }
  }

  lemma LossEventsExtend(s: Congestion.Bbr, n: nat, now: real)
    ensures Congestion.Run(s, LossEvents(n + 1, now)) == Congestion.OnLost(Congestion.Run(s, LossEvents(n, now)), now)
  {
    hide Congestion.OnLost;
    var es := LossEvents(n + 1, now);
    assert es[..n] == LossEvents(n, now) && es[n] == Congestion.Lost(now);
  }

  lemma {:induction false} ResendController(c: Client, lost: seq<Recovery.InFlight>, env: AckEnv)
    ensures Resend(c, lost, env).client.bbr == Congestion.Run(c.bbr, LossEvents(Handled(c, lost, env), env.now))
    ensures !Resend(c, lost, env).failed ==> Handled(c, lost, env) == |lost|
  {
    hide ResendOne, Congestion.OnLost, Congestion.Step;
    if lost != [] {
      var n := |lost| - 1;
      ResendController(c, lost[..n], env);
      var o := Resend(c, lost[..n], env);
      if !o.failed {
        ResendOneEffect(o, lost[n], n, env);
        LossEventsExtend(c.bbr, n, env.now);
      }
    }
  }

  lemma HeaderController(c: Client, h: Header, env: AckEnv)
    ensures ProcessHeader(c, h, env).client.bbr == Congestion.Run(c.bbr, HeaderEvents(c, h, env))
  {
    hide CountAcks, Resend, Handled, Congestion.Run, Recovery.OnAck, RttSample, AckedEvents, LossEvents;
    var a := Recovery.OnAck(c.recovery, h.latestAck, env.ackNow);
    var rtt := RttSample(h.ackTimestampEcho, env.rttNow);
    var c0 := TakeAck(c, h, a.state);
    var c1 := CountAcks(c0, a.acked, rtt, env.now);
    CountAcksController(c0, a.acked, rtt, env.now);
    ResendController(c1, a.lost, env);
    var losses := LossEvents(Handled(c1, a.lost, env), env.now);
    CongestionProofs.RunAppend(c.bbr, AckedEvents(a.acked, rtt, env.now), losses);
  }

  lemma OneEvent(s: Congestion.Bbr, e: Congestion.Event)
    ensures Congestion.Run(s, [e]) == Congestion.Step(s, e)
    ensures Congestion.Run(s, []) == s
  {
    hide Congestion.Step;
    assert [e][..0] == [];
  }

  lemma CallController(c: Client, call: Call)
    ensures Apply(c, call).client.bbr == Congestion.Run(c.bbr, EventsOf(c, call))
  {
    hide Send, ProcessHeader, HeaderEvents, Congestion.Run, Decode, Congestion.OnSent;
    match call
    case SendCall(payload, env) =>
      SendEffect(c, payload, env);
      OneEvent(c.bbr, Congestion.Sent(env.sentNow));
    case AckCall(data, env) =>
      OneEvent(c.bbr, Congestion.Lost(env.now));
      if Decode(data).Some? {
        HeaderController(c, Decode(data).value.header, env);
      }
  }

  /** The controller inside a client is always in the state of a controller run on the
      events the calls produced, so everything proved of controller runs holds of it. */
  lemma {:induction false} ControllerRun(c: Client, calls: seq<Call>)
    ensures Run(c, calls).bbr == Congestion.Run(c.bbr, Events(c, calls))
  {
    hide Apply, EventsOf, Congestion.Run;
    OneEvent(c.bbr, Congestion.Lost(0.0));
    if calls != [] {
      var n := |calls| - 1;
      ControllerRun(c, calls[..n]);
      CallController(Run(c, calls[..n]), calls[n]);
      CongestionProofs.RunAppend(c.bbr, Events(c, calls[..n]), EventsOf(Run(c, calls[..n]), calls[n]));
    }
  }

  // ---------------------------------------------------------------- order of events

  /** Last reading of the monotonic clock in a call. */
  function LastNow(call: Call): real {
    match call
    case SendCall(_, env) => env.sentNow
    case AckCall(_, env) => env.now
  }

  ghost predicate ClockForward(start: real, calls: seq<Call>) {
    && (forall i :: 0 <= i < |calls| ==> start <= LastNow(calls[i]))
    && (forall i, j :: 0 <= i < j < |calls| ==> LastNow(calls[i]) <= LastNow(calls[j]))
  }

  lemma EventsOfTime(c: Client, call: Call)
    ensures forall i :: 0 <= i < |EventsOf(c, call)| ==> EventsOf(c, call)[i].now == LastNow(call)
  {
    hide Decode, Recovery.OnAck, CountAcks, RttSample, Handled, AckedEvents;
    match call
    case SendCall(_, env) =>
    case AckCall(data, env) =>
      if Decode(data).Some? {
        var h := Decode(data).value.header;
        var es := HeaderEvents(c, h, env);
        var a := AckedEvents(Recovery.OnAck(c.recovery, h.latestAck, env.ackNow).acked,
                             RttSample(h.ackTimestampEcho, env.rttNow), env.now);
        assert forall i :: 0 <= i < |a| ==> a[i] in a;
        assert forall i :: 0 <= i < |es| ==> es[i].now == env.now;
      }
  }

  lemma {:induction false} EventsInOrder(start: real, c: Client, calls: seq<Call>)
    requires ClockForward(start, calls)
    ensures CongestionProofs.InOrder(start, Events(c, calls))
    ensures forall i :: 0 <= i < |Events(c, calls)| && calls != [] ==>
              Events(c, calls)[i].now <= LastNow(calls[|calls| - 1])
  {
    hide EventsOf, Run;
    if calls != [] {
      var n := |calls| - 1;
      EventsInOrder(start, c, calls[..n]);
      EventsOfTime(Run(c, calls[..n]), calls[n]);
      var a, b := Events(c, calls[..n]), EventsOf(Run(c, calls[..n]), calls[n]);
      assert forall i :: 0 <= i < |a| ==> a[i].now <= LastNow(calls[n]);
      OrderAppend(start, a, b, LastNow(calls[n]));
    }
  }

  lemma OrderAppend(start: real, a: seq<Congestion.Event>, b: seq<Congestion.Event>, t: real)
    requires CongestionProofs.InOrder(start, a) && start <= t
    requires forall i :: 0 <= i < |a| ==> a[i].now <= t
    requires forall i :: 0 <= i < |b| ==> b[i].now == t
    ensures CongestionProofs.InOrder(start, a + b)
    ensures forall i :: 0 <= i < |a + b| ==> (a + b)[i].now <= t
  {
  }

  // ---------------------------------------------------------------- ProbeRtt and ACK processing

  lemma {:induction false} AcksNeverEnterProbeRtt(s: Congestion.Bbr, acked: seq<Recovery.InFlight>, rtt: nonneg,
      now: real)
    requires acked != []
    ensures var u := Congestion.Run(s, AckedEvents(acked, rtt, now));
      && now - u.minRttStamp <= 10.0
      && (s.phase != Congestion.ProbeRtt ==> u.phase != Congestion.ProbeRtt)
  {
    hide Congestion.OnAck;
    var n := |acked| - 1;
    var es := AckedEvents(acked, rtt, now);
    assert es[..|es| - 1] == AckedEvents(acked[..n], rtt, now);
    var m := Congestion.Run(s, es[..|es| - 1]);
    if n > 0 {
      AcksNeverEnterProbeRtt(s, acked[..n], rtt, now);
    }
    CongestionProofs.AckNeverEntersProbeRtt(m, acked[n].size, rtt, now);
  }

  /** An ACK that acknowledges at least one packet never moves the sender into ProbeRtt,
      even though the losses it reveals are handled in the same call. */
  lemma AckCallNeverEntersProbeRtt(c: Client, data: bytes, env: AckEnv)
    requires Decode(data).Some?
    requires Recovery.OnAck(c.recovery, Decode(data).value.header.latestAck, env.ackNow).acked != []
    requires c.bbr.phase != Congestion.ProbeRtt
    ensures ProcessAck(c, data, env).client.bbr.phase != Congestion.ProbeRtt
  {
    hide Decode, CountAcks, Resend, Handled, Congestion.Run, Recovery.OnAck, RttSample, AckedEvents;
    var h := Decode(data).value.header;
    HeaderController(c, h, env);
    var a := Recovery.OnAck(c.recovery, h.latestAck, env.ackNow);
    var rtt := RttSample(h.ackTimestampEcho, env.rttNow);
    var c1 := CountAcks(TakeAck(c, h, a.state), a.acked, rtt, env.now);
    var acks, k := AckedEvents(a.acked, rtt, env.now), Handled(c1, a.lost, env);
    AcksNeverEnterProbeRtt(c.bbr, a.acked, rtt, env.now);
    CongestionProofs.RunAppend(c.bbr, acks, LossEvents(k, env.now));
    CongestionProofs.LossAfterAckNeverEntersProbeRtt(Congestion.Run(c.bbr, acks), env.now, k);
  }

  // ---------------------------------------------------------------- bytes in flight of an upload

  /** Every send passes the congestion check and carries the same payload size. */
  ghost predicate Guarded(c: Client, calls: seq<Call>, size: nat) {
    forall i :: 0 <= i < |calls| && calls[i].SendCall? ==>
      var before := Run(c, calls[..i]);
      |calls[i].payload| == size && before.bytesSent - before.bytesAcked < before.bbr.cwnd
  }

  lemma WindowOfRun(now: real, calls: seq<Call>)
    ensures 5600 <= Run(Init(now), calls).bbr.cwnd <= 1048576
  {
    hide Run, Congestion.Run, Congestion.Init;
    ControllerRun(Init(now), calls);
    CongestionProofs.CwndBounded(now, Events(Init(now), calls));
  }

  lemma NoUnderflow(now: real, calls: seq<Call>)
    ensures Run(Init(now), calls).bytesAcked <= Run(Init(now), calls).bytesSent
  {
    hide Run, Init, TallyOf, Accepted, Acknowledged, Dropped;
    InFlightAccounting(now, calls);
  }

  /** The window stays within its clamp in every reachable state, and the bytes counted as
      in flight stay below the largest window plus one datagram at every point of every
      upload: when the window shrinks, when losses are retransmitted, when sends fail. */
  lemma {:induction false} InFlightBound(now: real, calls: seq<Call>, size: nat)
    requires Guarded(Init(now), calls, size)
    ensures var c := Run(Init(now), calls);
      && 5600 <= c.bbr.cwnd <= 1048576
      && 0 <= c.bytesSent - c.bytesAcked < 1048576 + size + HEADER_SIZE
  {
    hide Init, Apply;
    WindowOfRun(now, calls);
    NoUnderflow(now, calls);
    if calls == [] {
      FreshCounters(now);
    } else {
      var n := |calls| - 1;
      assert Guarded(Init(now), calls[..n], size) by {
        hide Run;
        assert forall i :: 0 <= i < n ==> calls[..n][..i] == calls[..i];
      }
      InFlightBound(now, calls[..n], size);
      WindowOfRun(now, calls[..n]);
      CounterStep(Run(Init(now), calls[..n]), calls[n]);
    }
  }

  lemma {:induction false} DroppedGrows(c: Client, calls: seq<Call>, i: nat)
    requires i <= |calls|
    ensures Dropped(c, calls[..i]).bytes <= Dropped(c, calls).bytes
    decreases |calls|
  {
    hide Run, DroppedBy;
    if i == |calls| {
      assert calls[..i] == calls;
    } else {
      var init := calls[..|calls| - 1];
      assert init[..i] == calls[..i];
      DroppedGrows(c, init, i);
      PlusFields(Dropped(c, init), DroppedBy(Run(c, init), calls[|calls| - 1]));
    }
  }

  /** Bytes given up count as in flight for ever: once they reach the largest window, the
      congestion check fails in every later state. */
  lemma WindowStaysClosed(now: real, calls: seq<Call>, i: nat)
    requires i <= |calls| && Dropped(Init(now), calls[..i]).bytes >= 1048576
    ensures var c := Run(Init(now), calls); c.bytesSent - c.bytesAcked >= c.bbr.cwnd
  {
    hide Init, Run, Dropped, TallyOf, Accepted, Acknowledged, NoRetransmissionFails;
    DroppedGrows(Init(now), calls, i);
    InFlightAccounting(now, calls);
    WindowOfRun(now, calls);
  }

  lemma FreshCounters(now: real)
    ensures Init(now).bytesSent == Init(now).bytesAcked == 0
  {
    hide Congestion.Init, Pacing.Init, SendingRate;
  }

  lemma CounterStep(c: Client, call: Call)
    ensures var u := Apply(c, call).client;
      && u.bytesAcked >= c.bytesAcked
      && u.bytesSent == c.bytesSent + (if call.SendCall? && call.sendEnv.ok then |call.payload| + HEADER_SIZE else 0)
  {
    hide Send, Decode, CountAcks, Resend, Recovery.OnAck, TallyOf, RttSample;
    match call
    case SendCall(payload, env) => SendEffect(c, payload, env);
    case AckCall(data, env) =>
      if Decode(data).Some? {
        var h := Decode(data).value.header;
        var a := Recovery.OnAck(c.recovery, h.latestAck, env.ackNow);
        var c0 := TakeAck(c, h, a.state);
        var rtt := RttSample(h.ackTimestampEcho, env.rttNow);
        CountAcksEffect(c0, a.acked, rtt, env.now);
        CountAcksTally(c0, a.acked, rtt, env.now);
        ResendEffect(CountAcks(c0, a.acked, rtt, env.now), a.lost, env);
      }
  }

  // ---------------------------------------------------------------- pacing of a whole run

  /** The pacer's view of a run: one call per send attempt, failed ones included;
      retransmissions never pass through the pacer. */
  function PacerCalls(c: Client, calls: seq<Call>): seq<Pacing.Call> {
    if calls == [] then []
    else
      var before := PacerCalls(c, calls[..|calls| - 1]);
      match calls[|calls| - 1]
      case SendCall(payload, env) =>
        before + [Pacing.Call(Run(c, calls[..|calls| - 1]).pacer.rate, |payload| + HEADER_SIZE, env.paceNow)]
      case AckCall(_, _) => before
  }

  lemma PacerStep(c: Client, call: Call)
    ensures var u := Apply(c, call).client.pacer;
      match call
      case SendCall(payload, env) =>
        var s := Pacing.Schedule(c.pacer, |payload| + HEADER_SIZE, env.paceNow).state;
            u.last == s.last && u.next == s.next
      case AckCall(_, _) => u.last == c.pacer.last && u.next == c.pacer.next
    ensures var o := Apply(c, call);
      o.client.pacer.rate == if o.failed || (call.AckCall? && Decode(call.data).None?) then c.pacer.rate
                             else Pacing.Floored(SendingRate(o.client.bbr))
  {
    hide Send, Decode, CountAcks, Resend, Recovery.OnAck, Pacing.SendDuration, SendingRate, Pacing.Floored, RttSample,
        Congestion.OnSent;
    match call
    case SendCall(payload, env) => SendEffect(c, payload, env);
    case AckCall(data, env) =>
      if Decode(data).Some? {
        var h := Decode(data).value.header;
        var a := Recovery.OnAck(c.recovery, h.latestAck, env.ackNow);
        var c0 := TakeAck(c, h, a.state);
        var rtt := RttSample(h.ackTimestampEcho, env.rttNow);
        CountAcksEffect(c0, a.acked, rtt, env.now);
        ResendEffect(CountAcks(c0, a.acked, rtt, env.now), a.lost, env);
      }
  }

  lemma ScheduleIgnoresNext(s: Pacing.State, t: Pacing.State, size: nat, now: real)
    requires s.last == t.last && s.rate == t.rate
    ensures Pacing.Schedule(s, size, now) == Pacing.Schedule(t, size, now)
  {
    hide Pacing.SendDuration;
  }

  /** The pacer inside a client follows the schedule of a pacer run on those calls, so the
      closed form and the rate bound hold of it. */
  lemma {:induction false} PacerRun(c: Client, calls: seq<Call>)
    ensures var p, q := Run(c, calls).pacer, Pacing.Run(c.pacer, PacerCalls(c, calls));
        p.last == q.last && p.next == q.next
  {
    hide Apply, Pacing.Schedule;
    if calls != [] {
      var n := |calls| - 1;
      var m := Run(c, calls[..n]);
      PacerRun(c, calls[..n]);
      PacerStep(m, calls[n]);
      match calls[n]
      case SendCall(payload, env) =>
        var before, after := PacerCalls(c, calls[..n]), PacerCalls(c, calls);
        assert after[..|after| - 1] == before;
        var rated := Pacing.Run(c.pacer, before).(rate := m.pacer.rate);
        ScheduleIgnoresNext(m.pacer, rated, |payload| + HEADER_SIZE, env.paceNow);
      case AckCall(_, _) =>
    }
  }

  lemma {:induction false} SentBytesArePaced(c: Client, calls: seq<Call>)
    ensures Run(c, calls).bytesSent <= c.bytesSent + Pacing.Bytes(PacerCalls(c, calls))
  {
    hide Apply;
    if calls != [] {
      var n := |calls| - 1;
      SentBytesArePaced(c, calls[..n]);
      CounterStep(Run(c, calls[..n]), calls[n]);
      var before, after := PacerCalls(c, calls[..n]), PacerCalls(c, calls);
      if calls[n].SendCall? {
        assert after[..|after| - 1] == before;
      }
    }
  }

  /** From any state after a first send, whatever is called and received: the bytes sent
      are at most `limit` times the time the pacer schedule advanced, when the pacer's
      rate never exceeded `limit`. */
  lemma SendRateBound(c: Client, calls: seq<Call>, limit: nonneg, elapsed: real)
    requires c.pacer.last.Some? && Run(c, calls).pacer.last == Some(c.pacer.last.value + elapsed)
    requires Pacing.RatesAtMost(PacerCalls(c, calls), limit)
    ensures (Run(c, calls).bytesSent - c.bytesSent) as real <= limit * elapsed
  {
    hide Run, Pacing.Run, PacerCalls, Pacing.Bytes, Pacing.RatesAtMost, Pacing.Early;
    PacerRun(c, calls);
    SentBytesArePaced(c, calls);
    Pacing.RateBound(c.pacer, PacerCalls(c, calls), limit, elapsed);
  }

  /** What a send is told to wait. */
  function WaitOf(c: Client, call: Call): real
    requires call.SendCall?
  {
    Pacing.WaitTime(Pacing.Schedule(c.pacer, |call.payload| + HEADER_SIZE, call.sendEnv.paceNow).wait)
  }

  /** The sender sleeps as told before it sends, and takes up no send before the one before
      it is done. */
  ghost predicate HonoursPacing(c: Client, calls: seq<Call>) {
    && (forall i :: 0 <= i < |calls| && calls[i].SendCall? ==>
          calls[i].sendEnv.paceNow + WaitOf(Run(c, calls[..i]), calls[i]) <= calls[i].sendEnv.sentNow)
    && (forall i, j :: 0 <= i < j < |calls| && calls[i].SendCall? && calls[j].SendCall? ==>
          calls[i].sendEnv.sentNow <= calls[j].sendEnv.paceNow)
  }

  /** The scheduled time of the pacer has passed when the last send is done. */
  ghost predicate SlotPassed(c: Client, calls: seq<Call>) {
    c.pacer.last.Some? ==>
      exists i :: 0 <= i < |calls| && calls[i].SendCall? && c.pacer.last.value <= calls[i].sendEnv.sentNow
  }

  lemma HonoursPrefix(c: Client, calls: seq<Call>, n: nat)
    requires HonoursPacing(c, calls) && n <= |calls|
    ensures HonoursPacing(c, calls[..n])
  {
    hide Run, WaitOf;
    assert forall i :: 0 <= i < n ==> calls[..n][..i] == calls[..i];
  }

  lemma {:induction false} SlotPasses(now: real, calls: seq<Call>)
    requires HonoursPacing(Init(now), calls)
    ensures SlotPassed(Run(Init(now), calls), calls)
  {
    hide Init, Apply, Pacing.Schedule;
    if calls == [] {
      FreshPacer(now);
    } else {
      var n := |calls| - 1;
      var c := Run(Init(now), calls[..n]);
      HonoursPrefix(Init(now), calls, n);
      SlotPasses(now, calls[..n]);
      PacerStep(c, calls[n]);
      match calls[n]
      case SendCall(payload, env) =>
        Pacing.SlotAfterWait(c.pacer, |payload| + HEADER_SIZE, env.paceNow);
      case AckCall(_, _) =>
        if c.pacer.last.Some? {
          var i :| 0 <= i < n && calls[..n][i].SendCall? && c.pacer.last.value <= calls[..n][i].sendEnv.sentNow;
          assert calls[i] == calls[..n][i];
        }
    }
  }

  lemma FreshPacer(now: real)
    ensures Init(now).pacer.last == None
  {
    hide SendingRate, Congestion.Init;
  }

  /** A sender that sleeps as told is never told to sleep longer than its packet takes to send
      at the current rate, hence never longer than size / 1000 seconds, in any run: whatever
      arrives, whichever sends fail and however the rate changes. */
  lemma SenderWaitsAreShort(now: real, calls: seq<Call>, i: nat)
    requires i < |calls| && calls[i].SendCall? && HonoursPacing(Init(now), calls)
    ensures var c := Run(Init(now), calls[..i]); var w, size := WaitOf(c, calls[i]), |calls[i].payload| + HEADER_SIZE;
      && 0.0 <= w <= Pacing.SendDuration(size, c.pacer.rate)
      && w * 1000.0 <= size as real
  {
    hide Run, Init, Pacing.Schedule, Pacing.SendDuration;
    var c := Run(Init(now), calls[..i]);
    HonoursPrefix(Init(now), calls, i);
    SlotPasses(now, calls[..i]);
    if c.pacer.last.Some? {
      var j :| 0 <= j < i && calls[..i][j].SendCall? && c.pacer.last.value <= calls[..i][j].sendEnv.sentNow;
      assert calls[j] == calls[..i][j];
    }
    Pacing.WaitIsShort(c.pacer, |calls[i].payload| + HEADER_SIZE, calls[i].sendEnv.paceNow);
  }

  /** The rate the pacer may use when the bandwidth estimate stays at or below `bw`. */
  ghost predicate EstimatesAtMost(c: Client, calls: seq<Call>, bw: nonneg) {
    forall i :: 0 <= i <= |calls| ==> Le(Run(c, calls[..i]).bbr.filter.maxBw, Fin(bw))
  }

  lemma RateCap(b: Congestion.Bbr, bw: nonneg, limit: nonneg)
    requires Le(b.pacingRate, Mul(Fin(2.77), b.filter.maxBw)) && Le(b.filter.maxBw, Fin(bw))
    requires limit >= 1000.0 && limit >= 2.77 * bw
    ensures Le(Pacing.Floored(SendingRate(b)), Fin(limit))
  {
    var m := b.filter.maxBw.value;
    assert 2.77 * m <= 2.77 * bw;
    assert Mul(Fin(2.77), Fin(m)) == Fin(2.77 * m);
    assert Le(b.pacingRate, Fin(2.77 * m));
  }

  lemma RunPacing(now: real, calls: seq<Call>)
    ensures var b := Run(Init(now), calls).bbr;
      Le(b.pacingRate, Mul(Fin(2.77), b.filter.maxBw))
  {
    hide Run, Mul;
    ControllerRun(Init(now), calls);
    var es := Events(Init(now), calls);
    if es == [] {
      FreshRate(now);
    } else {
      CongestionProofs.ControlOfRun(now, es);
    }
  }

  lemma FreshRate(now: real)
    ensures var b := Congestion.Run(Congestion.Init(now), []);
      Le(b.pacingRate, Mul(Fin(2.77), b.filter.maxBw))
    ensures Init(now).bbr == Congestion.Init(now)
    ensures Init(now).pacer.rate == Pacing.Floored(SendingRate(Init(now).bbr))
  {
  }

  lemma {:induction false} PacerRateCap(now: real, calls: seq<Call>, bw: nonneg, limit: nonneg)
    requires EstimatesAtMost(Init(now), calls, bw) && limit >= 1000.0 && limit >= 2.77 * bw
    ensures Le(Run(Init(now), calls).pacer.rate, Fin(limit))
    ensures Pacing.RatesAtMost(PacerCalls(Init(now), calls), limit)
  {
    hide Init, Apply, SendingRate, Pacing.Floored, Mul, Le;
    assert calls[..|calls|] == calls;
    RunPacing(now, calls);
    RateCap(Run(Init(now), calls).bbr, bw, limit);
    FreshRate(now);
    if calls != [] {
      var n := |calls| - 1;
      assert forall i :: 0 <= i <= n ==> calls[..n][..i] == calls[..i];
      PacerRateCap(now, calls[..n], bw, limit);
      PacerStep(Run(Init(now), calls[..n]), calls[n]);
    }
  }

  /** Controller and pacer together: in a run from a fresh sender whose bandwidth estimate
      never exceeds `bw`, every attempt is paced at no more than max(1000, 2.77*bw) bytes
      per second. After the first attempt `i`, the bytes sent are within that rate times
      the schedule. */
  lemma PacedByBandwidth(now: real, calls: seq<Call>, bw: nonneg, limit: nonneg, i: nat, elapsed: real)
    requires EstimatesAtMost(Init(now), calls, bw) && limit >= 1000.0 && limit >= 2.77 * bw
    requires i <= |calls|
    requires var s := Run(Init(now), calls[..i]).pacer.last;
      s.Some? && Run(Init(now), calls).pacer.last == Some(s.value + elapsed)
    ensures (Run(Init(now), calls).bytesSent - Run(Init(now), calls[..i]).bytesSent) as real <= limit * elapsed
  {
    hide Init, Apply, Run, PacerCalls, Pacing.Run;
    var c := Run(Init(now), calls[..i]);
    RunSplit(Init(now), calls, i);
    PacerRateCap(now, calls, bw, limit);
    PacerCallsSplit(Init(now), calls, i);
    RatesOfSuffix(PacerCalls(Init(now), calls[..i]), PacerCalls(c, calls[i..]), limit);
    SendRateBound(c, calls[i..], limit, elapsed);
  }

  lemma RatesOfSuffix(a: seq<Pacing.Call>, b: seq<Pacing.Call>, limit: nonneg)
    requires Pacing.RatesAtMost(a + b, limit)
    ensures Pacing.RatesAtMost(b, limit)
  {
    forall i | 0 <= i < |b|
      ensures Le(b[i].rate, Fin(limit))
    {
      assert (a + b)[|a| + i] == b[i];
    }
  }

  lemma {:induction false} RunSplit(c: Client, calls: seq<Call>, i: nat)
    requires i <= |calls|
    ensures Run(c, calls) == Run(Run(c, calls[..i]), calls[i..])
  {
    hide Apply;
    if i == |calls| {
      assert calls[..i] == calls;
    } else {
      var n := |calls| - 1;
      RunSplit(c, calls[..n], i);
      assert calls[..n][..i] == calls[..i] && calls[..n][i..] == calls[i..][..n - i];
      assert calls[i..][n - i] == calls[n] && |calls[i..]| - 1 == n - i;
    }
  }

  lemma {:induction false} PacerCallsSplit(c: Client, calls: seq<Call>, i: nat)
    requires i <= |calls|
    ensures PacerCalls(c, calls) == PacerCalls(c, calls[..i]) + PacerCalls(Run(c, calls[..i]), calls[i..])
  {
    hide Run;
    if i == |calls| {
      assert calls[..i] == calls;
    } else {
      var n := |calls| - 1;
      PacerCallsSplit(c, calls[..n], i);
      RunSplit(c, calls[..n], i);
      assert calls[..n][..i] == calls[..i] && calls[..n][i..] == calls[i..][..n - i];
      assert calls[i..][n - i] == calls[n] && |calls[i..]| - 1 == n - i;
    }
  }

  // ---------------------------------------------------------------- agreement of the parts

  /** Client and controller count the same packets, and there is one RTT sample for each
      acknowledged packet. */
  ghost predicate CountsAgree(c: Client) {
    c.bbr.packetsSent == c.packetsSent && c.bbr.packetsAcked == c.packetsAcked == |c.rttSamples|
  }

  lemma ControllerCounts(b: Congestion.Bbr, size: nat, rtt: nonneg, now: real)
    ensures Congestion.OnSent(b, now).packetsSent == b.packetsSent + 1
        && Congestion.OnSent(b, now).packetsAcked == b.packetsAcked
    ensures Congestion.OnAck(b, size, rtt, now).packetsAcked == b.packetsAcked + 1
    ensures Congestion.OnAck(b, size, rtt, now).packetsSent == b.packetsSent
    ensures Congestion.OnLost(b, now).packetsAcked == b.packetsAcked
        && Congestion.OnLost(b, now).packetsSent == b.packetsSent
  {
    hide Congestion.RateFor, Congestion.WindowFor, Congestion.UpdateFilter;
  }

  lemma {:induction false} CountAcksAgree(c: Client, acked: seq<Recovery.InFlight>, rtt: nonneg, now: real)
    requires CountsAgree(c)
    ensures CountsAgree(CountAcks(c, acked, rtt, now))
  {
    hide Congestion.OnAck;
    if acked != [] {
      var n := |acked| - 1;
      CountAcksAgree(c, acked[..n], rtt, now);
      ControllerCounts(CountAcks(c, acked[..n], rtt, now).bbr, acked[n].size, rtt, now);
    }
  }

  lemma {:induction false} ResendAgrees(c: Client, lost: seq<Recovery.InFlight>, env: AckEnv)
    requires CountsAgree(c)
    ensures CountsAgree(Resend(c, lost, env).client)
  {
    hide Congestion.OnLost, Decode, Outgoing;
    if lost != [] {
      var n := |lost| - 1;
      ResendAgrees(c, lost[..n], env);
      ControllerCounts(Resend(c, lost[..n], env).client.bbr, 0, 0.0, env.now);
    }
  }

  lemma CallAgrees(c: Client, call: Call)
    requires CountsAgree(c)
    ensures CountsAgree(Apply(c, call).client)
  {
    hide Decode, CountAcks, Resend, Recovery.OnAck, RttSample, Outgoing, Congestion.OnSent, Pacing.Schedule,
        Pacing.Floored;
    match call
    case SendCall(payload, env) =>
      ControllerCounts(c.bbr, 0, 0.0, env.sentNow);
    case AckCall(data, env) =>
      if Decode(data).Some? {
        var h := Decode(data).value.header;
        var a := Recovery.OnAck(c.recovery, h.latestAck, env.ackNow);
        var c0 := TakeAck(c, h, a.state);
        var rtt := RttSample(h.ackTimestampEcho, env.rttNow);
        CountAcksAgree(c0, a.acked, rtt, env.now);
        ResendAgrees(CountAcks(c0, a.acked, rtt, env.now), a.lost, env);
      }
  }

  lemma {:induction false} CountersAgree(now: real, calls: seq<Call>)
    ensures CountsAgree(Run(Init(now), calls))
  {
    hide Apply;
    if calls == [] {
      FreshAgrees(now);
    } else {
      CountersAgree(now, calls[..|calls| - 1]);
      CallAgrees(Run(Init(now), calls[..|calls| - 1]), calls[|calls| - 1]);
    }
  }

  lemma FreshAgrees(now: real)
    ensures CountsAgree(Init(now))
  {
  }

  /** A sender is out of Startup by its 2245th acknowledged packet and never before its
      13th, whatever it sends and whatever arrives. */
  lemma SenderStartup(now: real, calls: seq<Call>)
    ensures var c := Run(Init(now), calls);
      && (c.bbr.phase == Congestion.Startup ==> c.packetsAcked <= 2244)
      && (c.bbr.phase != Congestion.Startup ==> c.packetsAcked >= 13)
  {
    hide Run, Congestion.Run, Init, Congestion.Init;
    FreshController(now);
    ControllerRun(Init(now), calls);
    CongestionProofs.StartupLength(now, Events(Init(now), calls));
    CountersAgree(now, calls);
  }

  lemma FreshController(now: real)
    ensures Init(now).bbr == Congestion.Init(now)
  {
  }

  /** Until a retransmission is refused, the pacer always runs at the controller's current
      rate; a refused first transmission changes neither. */
  lemma {:induction false} PacerFollowsController(now: real, calls: seq<Call>)
    requires NoRetransmissionFails(Init(now), calls)
    ensures var c := Run(Init(now), calls); c.pacer.rate == Pacing.Floored(SendingRate(c.bbr))
  {
    hide Init, ProcessAck, Send, SendingRate, Pacing.Floored, RetransmissionFails, AllStored;
    if calls == [] {
      FreshRate(now);
    } else {
      var n := |calls| - 1;
      assert forall i :: 0 <= i <= n ==> calls[..n][..i] == calls[..i];
      PacerFollowsController(now, calls[..n]);
      BalancedStores(now, calls[..n]);
      if calls[n].AckCall? {
        AckCallFailsIff(Run(Init(now), calls[..n]), calls[n].data, calls[n].ackEnv);
      }
      CallRepaces(Run(Init(now), calls[..n]), calls[n]);
    }
  }

  lemma FlooredRate(b: Congestion.Bbr)
    requires b.pacingRate != NaN
    ensures Pacing.Floored(SendingRate(b)) == if Le(Fin(1000.0), b.pacingRate) then b.pacingRate else Fin(1000.0)
    ensures Le(b.pacingRate, Pacing.Floored(SendingRate(b)))
  {
  }

  lemma RunRate(now: real, calls: seq<Call>)
    ensures var b := Run(Init(now), calls).bbr; Le(Div(b.filter.maxBw, Fin(2.77)), b.pacingRate) && b.pacingRate != NaN
  {
    hide Run, Div;
    ControllerRun(Init(now), calls);
    var es := Events(Init(now), calls);
    if es == [] {
      NothingMeasured(now);
    } else {
      CongestionProofs.ControlOfRun(now, es);
    }
  }

  lemma NothingMeasured(now: real)
    ensures var b := Congestion.Run(Congestion.Init(now), []); Le(Div(b.filter.maxBw, Fin(2.77)), b.pacingRate)
    ensures Init(now).bbr == Congestion.Init(now)
  {
    assert 0.0 / 2.77 == 0.0;
  }

  /** What the pacer is set to, as long as no retransmission is refused: the controller's pacing
      rate, or 1000 bytes per second where that is lower. It never falls below the bandwidth
      estimate divided by 2.77. */
  lemma PacerRateOfRun(now: real, calls: seq<Call>)
    requires NoRetransmissionFails(Init(now), calls)
    ensures var c := Run(Init(now), calls);
      && c.pacer.rate == (if Le(Fin(1000.0), c.bbr.pacingRate) then c.bbr.pacingRate else Fin(1000.0))
      && Le(Div(c.bbr.filter.maxBw, Fin(2.77)), c.pacer.rate)
  {
    hide Run, Init, Div, Pacing.Floored, SendingRate;
    PacerFollowsController(now, calls);
    RunRate(now, calls);
    var b := Run(Init(now), calls).bbr;
    FlooredRate(b);
    CongestionProofs.LeTransitive(Div(b.filter.maxBw, Fin(2.77)), b.pacingRate, Pacing.Floored(SendingRate(b)));
  }

  lemma CallRepaces(c: Client, call: Call)
    requires c.pacer.rate == Pacing.Floored(SendingRate(c.bbr)) && (call.AckCall? ==> !Apply(c, call).failed)
    ensures var u := Apply(c, call).client; u.pacer.rate == Pacing.Floored(SendingRate(u.bbr))
  {
    hide Decode, CountAcks, Resend, Recovery.OnAck, RttSample, Outgoing, Congestion.OnSent, Pacing.SendDuration,
        Pacing.Floored, SendingRate;
  }
}
