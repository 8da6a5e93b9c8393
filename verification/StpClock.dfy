/** What a client wall clock that does not run backwards adds to the system of StpSystem. */
module StpClock {
  import opened Numbers
  import opened Wire
  import opened Connection
  import opened Client
  import opened ClientRuns
  import opened ClientOrder
  import opened ClientAcks
  import opened StpSystem
  import Recovery
  import Server
  import ServerRuns

  /** Readings of the client's wall clock are in order. */
  ghost predicate Forward(w: World, a: Action) {
    match a
    case ClientSends(_, env) => w.clock <= env.stamp <= env.sentTime
    case ClientReceives(_, env, done) => EnvOrdered(env, w.clock, done)
    case Tick(time) => w.clock <= time
    case _ => true
  }

  ghost predicate ForwardRun(w: World, actions: seq<Action>) {
    forall i :: 0 <= i < |actions| ==> Forward(StpSystem.Run(w, actions[..i]), actions[i])
  }

  /** Reached from a start at wall-clock reading `start` without the clock running backwards. */
  ghost predicate ReachedForward(w: World, start: u64) {
    exists now, actions ::
      && ValidRun(Start(now, start), actions) && ForwardRun(Start(now, start), actions)
      && w == StpSystem.Run(Start(now, start), actions)
  }

  // ---------------------------------------------------------------- the invariant

  /** Everything on the network was stamped between `start` and `clock`. */
  ghost predicate NetStamped(net: set<bytes>, start: u64, clock: u64) {
    forall d :: d in net ==> start <= HeaderOf(d).timestamp <= clock
  }

  /** The sample is exactly the time from the timestamp of a received packet to a reading. */
  ghost predicate SampleExact(x: nonneg, received: set<bytes>, clock: u64) {
    exists d, reading: u64 ::
      && d in received && HeaderOf(d).timestamp <= reading <= clock
      && x == Elapsed(HeaderOf(d).timestamp, reading)
  }

  function Elapsed(from: u64, to: u64): real {
    (to - from) as real / 1000000.0
  }

  ghost predicate SamplesExact(samples: seq<nonneg>, received: set<bytes>, clock: u64) {
    forall i :: 0 <= i < |samples| ==> SampleExact(samples[i], received, clock)
  }

  ghost predicate OnTime(w: World, start: u64) {
    && start <= w.clock
    && Timed(w.client, w.clock)
    && NetStamped(w.toServer, start, w.clock)
    && (start > 0 ==> SamplesExact(w.client.rttSamples, w.received, w.clock))
  }

  lemma StampedLater(net: set<bytes>, more: set<bytes>, start: u64, clock: u64, later: u64)
    requires NetStamped(net, start, clock) && clock <= later
    requires forall d :: d in more ==> clock <= HeaderOf(d).timestamp <= later && start <= clock
    ensures NetStamped(net + more, start, later)
  {
    hide HeaderOf;
  }

  lemma ExactLater(samples: seq<nonneg>, received: set<bytes>, more: set<bytes>, clock: u64, later: u64)
    requires SamplesExact(samples, received, clock) && received <= more && clock <= later
    ensures SamplesExact(samples, more, later)
  {
    hide HeaderOf, Elapsed;
    forall i | 0 <= i < |samples|
      ensures SampleExact(samples[i], more, later)
    {
      assert SampleExact(samples[i], received, clock);
      var d, reading: u64 :|
        && d in received && HeaderOf(d).timestamp <= reading <= clock
        && samples[i] == Elapsed(HeaderOf(d).timestamp, reading);
    }
  }

  lemma SendStamps(c: Client, payload: bytes, env: SendEnv)
    ensures forall d :: d in OnWire(Send(c, payload, env).wire) ==> HeaderOf(d).timestamp == env.stamp
  {
    hide Send, Outgoing, Decode;
    SendEffect(c, payload, env);
    OutgoingStored(NextNumber(c.conn), env.stamp, payload, env.sentTime, false);
  }

  lemma {:induction false} ResendStamps(c: Client, lost: seq<Recovery.InFlight>, env: AckEnv, from: u64, to: u64)
    requires EnvOrdered(env, from, to)
    ensures forall d :: d in OnWire(Resend(c, lost, env).wire) ==> from <= HeaderOf(d).timestamp <= to
  {
    hide ResendOne, Outgoing, Decode;
    if lost != [] {
      var n := |lost| - 1;
      ResendStamps(c, lost[..n], env, from, to);
      var o := Resend(c, lost[..n], env);
      assert env.ackNow <= env.stamp(n) <= env.time(n) <= to;
      if !o.failed {
        ResendOneEffect(o, lost[n], n, env);
        if Decode(lost[n].data).Some? {
          OutgoingStored(NextNumber(o.client.conn), env.stamp(n), Decode(lost[n].data).value.payload, env.time(n),
              true);
        }
      }
    }
  }

  lemma ProcessStamps(c: Client, h: Header, env: AckEnv, from: u64, to: u64)
    requires EnvOrdered(env, from, to)
    ensures forall d :: d in OnWire(ProcessHeader(c, h, env).wire) ==> from <= HeaderOf(d).timestamp <= to
  {
    hide CountAcks, Resend, OnWire, RttSample, Recovery.OnAck, HeaderOf, EnvOrdered;
    var a := Recovery.OnAck(c.recovery, h.latestAck, env.ackNow);
    var rtt := RttSample(h.ackTimestampEcho, env.rttNow);
    ResendStamps(CountAcks(TakeAck(c, h, a.state), a.acked, rtt, env.now), a.lost, env, from, to);
  }

  // ---------------------------------------------------------------- steps

  lemma SendsOnTime(w: World, payload: bytes, env: SendEnv, start: u64)
    requires OnTime(w, start) && Forward(w, ClientSends(payload, env))
    ensures OnTime(Next(w, ClientSends(payload, env)), start)
  {
    hide Send, Timed, NetStamped, SamplesExact, OnWire, HeaderOf;
    SendTimed(w.client, payload, env, w.clock);
    SendStamps(w.client, payload, env);
    SendSamples(w.client, payload, env);
    StampedLater(w.toServer, OnWire(Send(w.client, payload, env).wire), start, w.clock, env.sentTime);
    if start > 0 {
      ExactLater(w.client.rttSamples, w.received, w.received, w.clock, env.sentTime);
    }
  }

  /** With forward clocks and a start after the epoch, a sample taken from an echo is exact. */
  lemma ExactSample(t: u64, reading: u64)
    requires 0 < t <= reading
    ensures RttSample(t, reading) == Elapsed(t, reading)
  {
  }

  lemma NewSampleExact(w: World, d: bytes, env: AckEnv, done: u64, start: u64)
    requires Invariant(w) && OnTime(w, start) && start > 0
    requires d in w.toClient && HeaderOf(d).latestAck > 0 && EnvOrdered(env, w.clock, done)
    ensures SampleExact(RttSample(HeaderOf(d).ackTimestampEcho, env.rttNow), w.received, done)
  {
    hide Decode, HeaderOf, Sequenced, InNet, AllStored, NetOk, LargestReceived, SamplesGenuine, SamplesExact, Timed,
      RttSample, Elapsed;
    var h := HeaderOf(d);
    assert Got(w.received, h.latestAck, h.ackTimestampEcho);
    var s :| s in w.received && HeaderOf(s).packetNumber == h.latestAck && HeaderOf(s).timestamp == h.ackTimestampEcho;
    assert s in w.toServer;
    ExactSample(HeaderOf(s).timestamp, env.rttNow);
  }

  lemma MoreExact(before: seq<nonneg>, n: nat, x: nonneg, received: set<bytes>, clock: u64)
    requires SamplesExact(before, received, clock) && (n > 0 ==> SampleExact(x, received, clock))
    ensures SamplesExact(before + seq(n, _ => x), received, clock)
  {
    hide SampleExact;
  }

  lemma NewSamplesExact(w: World, d: bytes, env: AckEnv, done: u64, start: u64)
    requires Invariant(w) && OnTime(w, start) && start > 0
    requires d in w.toClient && Decode(d).Some? && EnvOrdered(env, w.clock, done)
    ensures SamplesExact(ProcessHeader(w.client, HeaderOf(d), env).client.rttSamples, w.received, done)
  {
    hide Decode, Sequenced, NetOk, InNet, AllStored, LargestReceived, SamplesGenuine, RttSample, Recovery.OnAck,
      ProcessHeader, SamplesExact, SampleExact, Timed, NetStamped, HeaderOf, AcksGenuine;
    var h := HeaderOf(d);
    var acked := Recovery.OnAck(w.client.recovery, h.latestAck, env.ackNow).acked;
    ProcessSamples(w.client, h, env);
    NothingNamed(w.client, env.ackNow);
    if acked != [] {
      NewSampleExact(w, d, env, done, start);
    }
    ExactLater(w.client.rttSamples, w.received, w.received, w.clock, done);
    MoreExact(w.client.rttSamples, |acked|, RttSample(h.ackTimestampEcho, env.rttNow), w.received, done);
  }

  lemma ReceivesOnTime(w: World, d: bytes, env: AckEnv, done: u64, start: u64)
    requires Invariant(w) && OnTime(w, start)
    requires Enabled(w, ClientReceives(d, env, done)) && Forward(w, ClientReceives(d, env, done))
    ensures OnTime(Next(w, ClientReceives(d, env, done)), start)
  {
    hide Decode, Invariant, Timed, NetStamped, SamplesExact, OnWire, ProcessHeader;
    if Decode(d).Some? {
      var h := Decode(d).value.header;
      AckTimed(w.client, h, env, w.clock, done);
      ProcessStamps(w.client, h, env, w.clock, done);
      StampedLater(w.toServer, OnWire(ProcessHeader(w.client, h, env).wire), start, w.clock, done);
      if start > 0 {
        NewSamplesExact(w, d, env, done, start);
      }
    } else {
      SkipTimed(w.client, w.client, w.clock, done);
      OneOnWire(d);
      StampedLater(w.toServer, OnWire([]), start, w.clock, done);
      if start > 0 {
        ExactLater(w.client.rttSamples, w.received, w.received, w.clock, done);
      }
    }
  }

  lemma StepOnTime(w: World, a: Action, start: u64)
    requires Invariant(w) && OnTime(w, start) && Enabled(w, a) && Forward(w, a)
    ensures OnTime(Next(w, a), start)
  {
    hide Invariant, Timed, NetStamped, SamplesExact, Server.HandleDatagram, Send, ProcessAck, Sent;
    match a
    case ClientSends(payload, env) => SendsOnTime(w, payload, env, start);
    case ClientReceives(d, env, done) => ReceivesOnTime(w, d, env, done, start);
    case ServerReceives(d, env) =>
      if start > 0 {
        ExactLater(w.client.rttSamples, w.received, w.received + {d}, w.clock, w.clock);
      }
    case OthersSend(_, _, _) =>
    case Tick(time) =>
      SkipTimed(w.client, w.client, w.clock, time);
      StampedLater(w.toServer, {}, start, w.clock, time);
      assert w.toServer + {} == w.toServer;
      if start > 0 {
        ExactLater(w.client.rttSamples, w.received, w.received, w.clock, time);
      }
  }

  lemma StartOnTime(now: real, start: u64)
    ensures OnTime(Start(now, start), start)
  {
  }

  /** As long as the client's wall clock does not run backwards, send times are ordered along
      the queue, everything on the network is stamped between start and now, and every
      recorded round trip is exact. */
  lemma {:induction false} ClockInvariant(now: real, start: u64, actions: seq<Action>)
    requires ValidRun(Start(now, start), actions) && ForwardRun(Start(now, start), actions)
    ensures OnTime(StpSystem.Run(Start(now, start), actions), start)
  {
    hide Invariant, OnTime, Next, Enabled, Forward, Start;
    if actions == [] {
      StartOnTime(now, start);
    } else {
      var n := |actions| - 1;
      assert forall i :: 0 <= i <= n ==> actions[..n][..i] == actions[..i];
      ClockInvariant(now, start, actions[..n]);
      SystemInvariant(now, start, actions[..n]);
      StepOnTime(StpSystem.Run(Start(now, start), actions[..n]), actions[n], start);
    }
  }

  lemma ReachedOnTime(w: World, start: u64)
    requires ReachedForward(w, start)
    ensures Reachable(w) && Invariant(w) && OnTime(w, start)
  {
    hide Invariant, OnTime, StpSystem.Run, ValidRun, ForwardRun, Start;
    var now, actions :|
      && ValidRun(Start(now, start), actions) && ForwardRun(Start(now, start), actions)
      && w == StpSystem.Run(Start(now, start), actions);
    ClockInvariant(now, start, actions);
    SystemInvariant(now, start, actions);
  }

  // ---------------------------------------------------------------- what it means

  /** With a forward clock every ACK delivery cuts the queue in three consecutive pieces, and
      what is lost is exactly what is newer than the ACK and more than a second old. */
  lemma AckCutsByAge(w: World, start: u64, d: bytes, env: AckEnv, done: u64)
    requires ReachedForward(w, start)
    requires Enabled(w, ClientReceives(d, env, done)) && Forward(w, ClientReceives(d, env, done))
    ensures var s, a := w.client.recovery, HeaderOf(d).latestAck;
      var o := Recovery.OnAck(s, a, env.ackNow);
      && o.acked + o.lost + o.state.inFlight == s.inFlight
      && (forall p :: p in o.lost <==>
            p in s.inFlight && p.packetNumber > a && env.ackNow > p.sentTime + 1_000_000)
      && (forall p :: p in o.state.inFlight ==> env.ackNow <= p.sentTime + 1_000_000)
  {
    hide Decode, Reachable, ReachedForward, Invariant, Recovery.OnAck, NetStamped, SamplesExact, Recovery.Stamped,
      Recovery.AgesInOrder;
    ReachedOnTime(w, start);
    var s := w.client.recovery;
    AckEffect(w, d, env, done);
    assert Recovery.Past(s.inFlight, env.ackNow);
    Recovery.PastInOrder(s.inFlight, HeaderOf(d).latestAck, env.ackNow);
    KeptWasQueued(s, HeaderOf(d).latestAck, env.ackNow);
    assert forall p :: p in s.inFlight ==> p.sentTime <= env.ackNow;
  }

  /** RTT samples are genuine: with a forward clock, the sample an ACK yields is exactly the
      time since the timestamp of the only packet ever sent under the number it names, and
      never negative. */
  lemma RttGenuine(w: World, start: u64, d: bytes, env: AckEnv, done: u64) returns (s: bytes)
    requires ReachedForward(w, start) && HeaderOf(d).ackTimestampEcho > 0
    requires Enabled(w, ClientReceives(d, env, done)) && Forward(w, ClientReceives(d, env, done))
    ensures s in w.received && s in w.toServer && HeaderOf(s).packetNumber == HeaderOf(d).latestAck
    ensures forall t :: t in w.toServer && HeaderOf(t).packetNumber == HeaderOf(d).latestAck ==> t == s
    ensures HeaderOf(s).timestamp == HeaderOf(d).ackTimestampEcho <= env.rttNow
    ensures RttSample(HeaderOf(d).ackTimestampEcho, env.rttNow) == Elapsed(HeaderOf(s).timestamp, env.rttNow)
  {
    hide Decode, Reachable, ReachedForward, Sequenced, InNet, AllStored, LargestReceived, SamplesGenuine, SamplesExact,
      Timed, RttSample, Elapsed, HeaderOf;
    ReachedOnTime(w, start);
    var h := HeaderOf(d);
    assert Got(w.received, h.latestAck, h.ackTimestampEcho);
    var r :| r in w.received && HeaderOf(r).packetNumber == h.latestAck && HeaderOf(r).timestamp == h.ackTimestampEcho;
    s := EchoGenuine(w, d);
    ExactSample(HeaderOf(s).timestamp, env.rttNow);
  }

  /** The whole recorded history is exact: in every world reached with a forward clock from a
      start after the epoch, each round-trip sample is the time from the timestamp of a packet
      that was received to a later reading. The default of one millisecond stands for no
      unknown round trip. */
  lemma HistoryExact(w: World, start: u64, i: nat) returns (s: bytes, reading: u64)
    requires ReachedForward(w, start) && start > 0 && i < |w.client.rttSamples|
    ensures s in w.received && s in w.toServer && start <= HeaderOf(s).timestamp <= reading <= w.clock
    ensures w.client.rttSamples[i] == Elapsed(HeaderOf(s).timestamp, reading)
  {
    hide Decode, Reachable, ReachedForward, Sequenced, InNet, AllStored, LargestReceived, SamplesGenuine, Timed,
      HeaderOf, Elapsed;
    ReachedOnTime(w, start);
    assert SampleExact(w.client.rttSamples[i], w.received, w.clock);
    s, reading :|
      && s in w.received && HeaderOf(s).timestamp <= reading <= w.clock
      && w.client.rttSamples[i] == Elapsed(HeaderOf(s).timestamp, reading);
  }

  // ---------------------------------------------------------------- a limit of the protocol

  lemma RunSteps(w: World, actions: seq<Action>, a: Action)
    ensures StpSystem.Run(w, actions + [a]) == Next(StpSystem.Run(w, actions), a)
    ensures ValidRun(w, actions) && Enabled(StpSystem.Run(w, actions), a) ==> ValidRun(w, actions + [a])
    ensures ForwardRun(w, actions) && Forward(StpSystem.Run(w, actions), a) ==> ForwardRun(w, actions + [a])
  {
    hide Next, Enabled, Forward;
    var all := actions + [a];
    assert all[..|actions|] == actions;
    assert forall i :: 0 <= i < |actions| ==> all[..i] == actions[..i];
  }

  const PROMPT_SEND := SendEnv(1, 0.0, true, 0.0, 1)

  /** State of the example after `n` empty sends at time 1. */
  ghost predicate SentEmpty(w: World, n: nat) {
    && w.clock == 1 && w.client.conn.localPacketNumber == n
    && w.client.recovery.largestAcked == 0
    && |w.client.recovery.inFlight| == n
    && (forall i :: 0 <= i < n ==>
          && w.client.recovery.inFlight[i].packetNumber == i + 1
          && w.client.recovery.inFlight[i].sentTime == 1
          && w.client.recovery.inFlight[i].data in w.toServer
          && HeaderOf(w.client.recovery.inFlight[i].data).packetNumber == i + 1)
    && w.received == {} && w.toClient == {}
  }

  lemma SendOneEmpty(w: World, n: nat)
    requires SentEmpty(w, n) && n < 2
    ensures Enabled(w, ClientSends([], PROMPT_SEND)) && Forward(w, ClientSends([], PROMPT_SEND))
    ensures SentEmpty(Next(w, ClientSends([], PROMPT_SEND)), n + 1)
  {
    hide Send, Outgoing, Decode;
    var conn := NextNumber(w.client.conn);
    SendEffect(w.client, [], PROMPT_SEND);
    OutgoingStored(conn, 1, [], 1, false);
    OneOnWire(Outgoing(conn, 1, []));
  }

  function AlwaysOk(): Server.Env {
    Server.Env(_ => 0, _ => true)
  }

  function AllAtOne(): AckEnv {
    AckEnv(0.0, 1, 1, _ => 1, _ => 1, _ => true)
  }

  /** The server's ACK of datagram `d` reaches the client's side of the network. */
  lemma ServerAcks(w: World, d: bytes) returns (ack: bytes)
    requires Decode(d).Some?
    ensures ack in Next(w, ServerReceives(d, AlwaysOk())).toClient
    ensures Decode(ack).Some? && HeaderOf(ack).latestAck == HeaderOf(d).packetNumber
  {
    hide Server.Handle, Decode;
    ServerRuns.HandleOnePacket(Server.SessionOf(w.sessions, ME), Decode(d).value, AlwaysOk());
    var attempts := Server.HandleDatagram(w.sessions, ME, d, AlwaysOk()).attempts;
    assert attempts[0] in attempts && attempts[0].ok;
    ack := attempts[0].datagram;
  }

  /** Acknowledging everything in flight leaves nothing in flight. */
  lemma AckEverything(c: Client, h: Header, env: AckEnv)
    requires forall i :: 0 <= i < |c.recovery.inFlight| ==> c.recovery.inFlight[i].packetNumber <= h.latestAck
    ensures var u := ProcessHeader(c, h, env).client;
      && u.recovery.inFlight == [] && u.packetsAcked == c.packetsAcked + |c.recovery.inFlight|
      && u.recovery.largestAcked == Max(c.recovery.largestAcked, h.latestAck)
  {
    hide CountAcks, RttSample, TallyOf;
    var s, a := c.recovery, h.latestAck;
    Recovery.SelectAll(s.inFlight, Recovery.Acked, a, Max(s.largestAcked, a), env.ackNow);
    Recovery.SelectNone(s.inFlight, Recovery.Lost, a, Max(s.largestAcked, a), env.ackNow);
    Recovery.SelectNone(s.inFlight, Recovery.Kept, a, Max(s.largestAcked, a), env.ackNow);
    var o := Recovery.OnAck(s, a, env.ackNow);
    var c0 := TakeAck(c, h, o.state);
    var rtt := RttSample(h.ackTimestampEcho, env.rttNow);
    CountAcksEffect(c0, o.acked, rtt, env.now);
    CountAcksTally(c0, o.acked, rtt, env.now);
    TallyCount(o.acked);
  }

  /** "Acknowledged" does not mean "received", even with a forward clock: there is a
      reachable world in which the client counts two packets as acknowledged, has nothing in flight, and one of the two
      never reached the server. */
  lemma AcknowledgedNeedNotBeReceived() returns (w: World, lost: bytes)
    ensures ReachedForward(w, 1) && lost in w.toServer && lost !in w.received
    ensures HeaderOf(lost).packetNumber <= w.client.recovery.largestAcked
    ensures w.client.recovery.inFlight == [] && w.client.packetsAcked >= 2
  {
    hide Send, ProcessHeader, Server.HandleDatagram, Decode, StpSystem.Run, ValidRun, ForwardRun, Start;
    var send := ClientSends([], PROMPT_SEND);
    var w0 := Start(0.0, 1);
    NothingYet();
    SendOneEmpty(w0, 0);
    var w1 := Next(w0, send);
    SendOneEmpty(w1, 1);
    var w2 := Next(w1, send);
    lost := w2.client.recovery.inFlight[0].data;
    var d := w2.client.recovery.inFlight[1].data;
    var ack := ServerAcks(w2, d);
    var receive, answer := ServerReceives(d, AlwaysOk()), ClientReceives(ack, AllAtOne(), 1);
    var w3 := Next(w2, receive);
    w := Next(w3, answer);
    AckEverything(w3.client, HeaderOf(ack), AllAtOne());
    assert EnvOrdered(AllAtOne(), 1, 1);
    RunSteps(w0, [], send);
    RunSteps(w0, [] + [send], send);
    RunSteps(w0, [] + [send] + [send], receive);
    RunSteps(w0, [] + [send] + [send] + [receive], answer);
    assert w == StpSystem.Run(Start(0.0, 1), [] + [send] + [send] + [receive] + [answer]);
  }

  lemma NothingYet()
    ensures var w := Start(0.0, 1); SentEmpty(w, 0) && StpSystem.Run(w, []) == w && ValidRun(w, []) && ForwardRun(w, [])
  {
  }
}
