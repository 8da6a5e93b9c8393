/** The sender during the first ten seconds, before its minimum round trip can expire: how the
    size of its packets bounds window, Startup and bytes in flight. */
module ClientEarly {
  import opened Numbers
  import opened Wire
  import opened Connection
  import opened Client
  import opened ClientRuns
  import opened ClientControl
  import Recovery
  import Congestion
  import CongestionProofs

  // ---------------------------------------------------------------- sizes

  ghost predicate SizesAtMost(q: seq<Recovery.InFlight>, limit: nat) {
    forall p :: p in q ==> p.size <= limit
  }

  ghost predicate PayloadsAtMost(calls: seq<Call>, size: nat) {
    forall i :: 0 <= i < |calls| && calls[i].SendCall? ==> |calls[i].payload| <= size
  }

  lemma SelectSizes(q: seq<Recovery.InFlight>, v: Recovery.Verdict, ack: u64, largest: u64, now: u64, limit: nat)
    requires SizesAtMost(q, limit)
    ensures SizesAtMost(Recovery.Select(q, v, ack, largest, now), limit)
  {
    Recovery.SelectMembers(q, v, ack, largest, now);
  }

  /** Retransmission changes no size. */
  lemma {:induction false} ResendSizes(c: Client, lost: seq<Recovery.InFlight>, env: AckEnv, limit: nat)
    requires AllStored(lost) && SizesAtMost(lost, limit) && SizesAtMost(c.recovery.inFlight, limit)
    ensures SizesAtMost(Resend(c, lost, env).client.recovery.inFlight, limit)
  {
    hide ResendOne, Stored, Decode, Outgoing;
    if lost != [] {
      var n := |lost| - 1;
      ResendSizes(c, lost[..n], env, limit);
      var o := Resend(c, lost[..n], env);
      if !o.failed {
        ResendOneEffect(o, lost[n], n, env);
        RenumberedTally(NextNumber(o.client.conn), env.stamp(n), lost[n], env.time(n));
      }
    }
  }

  lemma HeaderSizes(c: Client, h: Header, env: AckEnv, limit: nat)
    requires AllStored(c.recovery.inFlight) && SizesAtMost(c.recovery.inFlight, limit)
    ensures SizesAtMost(ProcessHeader(c, h, env).client.recovery.inFlight, limit)
    ensures SizesAtMost(Recovery.OnAck(c.recovery, h.latestAck, env.ackNow).acked, limit)
  {
    hide CountAcks, Resend, RttSample, Recovery.Select, SizesAtMost, AllStored;
    var q, largest := c.recovery.inFlight, Max(c.recovery.largestAcked, h.latestAck);
    var a := Recovery.OnAck(c.recovery, h.latestAck, env.ackNow);
    SelectSizes(q, Recovery.Acked, h.latestAck, largest, env.ackNow, limit);
    SelectSizes(q, Recovery.Lost, h.latestAck, largest, env.ackNow, limit);
    SelectSizes(q, Recovery.Kept, h.latestAck, largest, env.ackNow, limit);
    SelectStored(q, Recovery.Lost, h.latestAck, largest, env.ackNow);
    var rtt := RttSample(h.ackTimestampEcho, env.rttNow);
    var c0 := TakeAck(c, h, a.state);
    CountAcksEffect(c0, a.acked, rtt, env.now);
    ResendSizes(CountAcks(c0, a.acked, rtt, env.now), a.lost, env, limit);
  }

  lemma CallSizes(c: Client, call: Call, limit: nat)
    requires AllStored(c.recovery.inFlight) && SizesAtMost(c.recovery.inFlight, limit)
    requires call.SendCall? ==> |call.payload| + HEADER_SIZE <= limit
    ensures SizesAtMost(Apply(c, call).client.recovery.inFlight, limit)
  {
    hide Send, ProcessHeader, Decode, AllStored;
    match call
    case SendCall(payload, env) => SendEffect(c, payload, env);
    case AckCall(data, env) =>
      if Decode(data).Some? {
        HeaderSizes(c, Decode(data).value.header, env, limit);
      }
  }

  lemma {:induction false} RunSizes(now: real, calls: seq<Call>, size: nat)
    requires PayloadsAtMost(calls, size)
    ensures SizesAtMost(Run(Init(now), calls).recovery.inFlight, size + HEADER_SIZE)
  {
    hide Init, Apply, AllStored;
    if calls == [] {
      FreshSender(now);
    } else {
      var n := |calls| - 1;
      assert forall i :: 0 <= i < n ==> calls[..n][i] == calls[i];
      RunSizes(now, calls[..n], size);
      BalancedStores(now, calls[..n]);
      CallSizes(Run(Init(now), calls[..n]), calls[n], size + HEADER_SIZE);
    }
  }

  // ---------------------------------------------------------------- the controller's events

  lemma {:induction false} AckedEventSizes(acked: seq<Recovery.InFlight>, rtt: nonneg, now: real, limit: nat)
    requires SizesAtMost(acked, limit)
    ensures CongestionProofs.AcksAtMost(AckedEvents(acked, rtt, now), limit)
  {
    if acked != [] {
      AckedEventSizes(acked[..|acked| - 1], rtt, now, limit);
    }
  }

  lemma EventSizes(c: Client, call: Call, limit: nat)
    requires AllStored(c.recovery.inFlight) && SizesAtMost(c.recovery.inFlight, limit)
    ensures CongestionProofs.AcksAtMost(EventsOf(c, call), limit)
  {
    hide Decode, CountAcks, Resend, Handled, Recovery.OnAck, RttSample, AckedEvents, AllStored, SizesAtMost,
        ProcessHeader;
    if call.AckCall? && Decode(call.data).Some? {
      var h, env := Decode(call.data).value.header, call.ackEnv;
      HeaderSizes(c, h, env, limit);
      var acked := Recovery.OnAck(c.recovery, h.latestAck, env.ackNow).acked;
      AckedEventSizes(acked, RttSample(h.ackTimestampEcho, env.rttNow), env.now, limit);
    }
  }

  lemma {:induction false} RunEventSizes(now: real, calls: seq<Call>, size: nat)
    requires PayloadsAtMost(calls, size)
    ensures CongestionProofs.AcksAtMost(Events(Init(now), calls), size + HEADER_SIZE)
  {
    hide Init, Run, EventsOf, AllStored, SizesAtMost;
    if calls != [] {
      var n := |calls| - 1;
      assert forall i :: 0 <= i < n ==> calls[..n][i] == calls[i];
      RunEventSizes(now, calls[..n], size);
      RunSizes(now, calls[..n], size);
      BalancedStores(now, calls[..n]);
      EventSizes(Run(Init(now), calls[..n]), calls[n], size + HEADER_SIZE);
    }
  }

  /** All calls are over within ten seconds of the start, and the clock runs forward. */
  ghost predicate EarlyCalls(now: real, calls: seq<Call>) {
    && ClockForward(now, calls)
    && forall i :: 0 <= i < |calls| ==> LastNow(calls[i]) - now <= 10.0
  }

  lemma EarlyEvents(now: real, calls: seq<Call>)
    requires EarlyCalls(now, calls)
    ensures var es := Events(Init(now), calls); CongestionProofs.InOrder(now, es) && CongestionProofs.Early(now, es)
  {
    hide Init, Run, EventsOf, CongestionProofs.InOrder;
    EventsInOrder(now, Init(now), calls);
  }

  // ---------------------------------------------------------------- whole runs

  /** In the first ten seconds the sender's window never exceeds its initial value or two of
      its largest packets; with packets of at most 2800 bytes it is in Startup exactly up to
      its 12th acknowledged packet. */
  lemma EarlySender(now: real, calls: seq<Call>, size: nat)
    requires EarlyCalls(now, calls) && PayloadsAtMost(calls, size)
    ensures var c := Run(Init(now), calls);
      && c.bbr.cwnd <= Max(14000, 2 * (size + HEADER_SIZE))
      && (size + HEADER_SIZE <= 2800 ==> (c.bbr.phase == Congestion.Startup <==> c.packetsAcked <= 12))
  {
    hide Run, Congestion.Run, Init, Congestion.Init, CongestionProofs.InOrder, CongestionProofs.Early,
      CongestionProofs.AcksAtMost, EarlyCalls, PayloadsAtMost, Events;
    var es, limit := Events(Init(now), calls), size + HEADER_SIZE;
    FreshController(now);
    ControllerRun(Init(now), calls);
    EarlyEvents(now, calls);
    RunEventSizes(now, calls, size);
    CongestionProofs.EarlyStartup(now, es, limit);
    CongestionProofs.StartupLength(now, es);
    CountersAgree(now, calls);
    if es == [] {
      NoEvents(now);
    } else {
      CongestionProofs.EarlyWindow(now, es, limit);
    }
  }

  lemma NoEvents(now: real)
    ensures Congestion.Run(Congestion.Init(now), []).cwnd == 14000
  {
  }

  lemma EarlyPrefix(now: real, calls: seq<Call>, size: nat)
    requires EarlyCalls(now, calls) && Guarded(Init(now), calls, size) && calls != []
    ensures var init := calls[..|calls| - 1]; EarlyCalls(now, init) && Guarded(Init(now), init, size)
  {
    hide Run, Init;
    var init := calls[..|calls| - 1];
    assert forall i :: 0 <= i < |init| ==> init[..i] == calls[..i] && init[i] == calls[i];
  }

  lemma GuardedPayloads(c: Client, calls: seq<Call>, size: nat)
    requires Guarded(c, calls, size)
    ensures PayloadsAtMost(calls, size)
  {
    hide Run;
  }

  /** An upload of at most ten seconds, the default length of a test, keeps far fewer bytes in
      flight than the largest window: at most the initial window or two packets, plus one. */
  lemma {:induction false} EarlyInFlightBound(now: real, calls: seq<Call>, size: nat)
    requires EarlyCalls(now, calls) && Guarded(Init(now), calls, size)
    ensures var c := Run(Init(now), calls);
      c.bytesSent - c.bytesAcked < Max(14000, 2 * (size + HEADER_SIZE)) + size + HEADER_SIZE
  {
    hide Init, Apply, EarlyCalls;
    if calls == [] {
      FreshCounters(now);
    } else {
      var n := |calls| - 1;
      var init := calls[..n];
      EarlyPrefix(now, calls, size);
      EarlyInFlightBound(now, init, size);
      GuardedPayloads(Init(now), init, size);
      EarlySender(now, init, size);
      CounterStep(Run(Init(now), init), calls[n]);
    }
  }
}
