/** Client, server and a network that may lose, duplicate and reorder datagrams. The
    network is the set of datagrams ever sent: any of them may be delivered at any time,
    any number of times, or never. Other hosts may send the server anything. Nothing here
    depends on clocks: the client's wall clock may step back at any time, and the server's
    is unrelated to it. */
module StpSystem {
  import opened Numbers
  import opened Wire
  import opened Connection
  import opened Client
  import opened ClientRuns
  import opened ClientOrder
  import opened ClientAcks
  import Congestion
  import Recovery
  import Server
  import ServerRuns

  /** The client's address. */
  const ME: Server.Addr := 0

  datatype World = World(
    client: Client,
    sessions: Server.Clients,
    toServer: set<bytes>,   // every datagram the client ever sent
    toClient: set<bytes>,   // every datagram the server ever sent to the client
    received: set<bytes>,   // the client's datagrams that reached the server
    delivered: set<bytes>,  // the server's datagrams that reached the client
    clock: u64)             // latest reading of the client's wall clock

  datatype Action =
    | ClientSends(payload: bytes, sendEnv: SendEnv)
    | ServerReceives(datagram: bytes, serverEnv: Server.Env)
    | OthersSend(addr: Server.Addr, data: bytes, otherEnv: Server.Env)
    | ClientReceives(ack: bytes, ackEnv: AckEnv, done: u64)
    | Tick(time: u64)

  function Start(now: real, clock: u64): World {
    World(Init(now), map[], {}, {}, {}, {}, clock)
  }

  function Sent(attempts: seq<Server.Attempt>): set<bytes> {
    set a | a in attempts && a.ok :: a.datagram
  }

  /** Deliveries pick from the network; packet numbers do not run out. */
  ghost predicate Enabled(w: World, a: Action) {
    match a
    case ClientSends(_, _) => w.client.conn.localPacketNumber < U64_LIMIT - 1
    case ServerReceives(d, _) => d in w.toServer
    case OthersSend(addr, _, _) => addr != ME
    case ClientReceives(d, _, _) =>
      d in w.toClient && w.client.conn.localPacketNumber + |w.client.recovery.inFlight| < U64_LIMIT
    case Tick(_) => true
  }

  function Next(w: World, a: Action): World {
    match a
    case ClientSends(payload, env) =>
      var o := Send(w.client, payload, env);
      w.(client := o.client, toServer := w.toServer + OnWire(o.wire), clock := env.sentTime)
    case ServerReceives(d, env) =>
      var r := Server.HandleDatagram(w.sessions, ME, d, env);
      w.(sessions := r.clients, toClient := w.toClient + Sent(r.attempts), received := w.received + {d})
    case OthersSend(addr, data, env) => w.(sessions := Server.HandleDatagram(w.sessions, addr, data, env).clients)
    case ClientReceives(d, env, done) =>
      var o := ProcessAck(w.client, d, env);
      w.(client := o.client, toServer := w.toServer + OnWire(o.wire), delivered := w.delivered + {d}, clock := done)
    case Tick(time) => w.(clock := time)
  }

  function Run(w: World, actions: seq<Action>): World {
    if actions == [] then w else Next(Run(w, actions[..|actions| - 1]), actions[|actions| - 1])
  }

  ghost predicate ValidRun(w: World, actions: seq<Action>) {
    forall i :: 0 <= i < |actions| ==> Enabled(Run(w, actions[..i]), actions[i])
  }

  ghost predicate Reachable(w: World) {
    exists now, clock, actions :: ValidRun(Start(now, clock), actions) && w == Run(Start(now, clock), actions)
  }

  // ---------------------------------------------------------------- the invariant

  /** What the client has put on the network: numbers it allocated, each used once. */
  ghost predicate NetOk(net: set<bytes>, local: u64) {
    && (forall d :: d in net ==> 1 <= HeaderOf(d).packetNumber <= local)
    && (forall d, e :: d in net && e in net && HeaderOf(d).packetNumber == HeaderOf(e).packetNumber ==> d == e)
  }

  ghost predicate InNet(q: seq<Recovery.InFlight>, net: set<bytes>) {
    forall i :: 0 <= i < |q| ==> q[i].data in net
  }

  /** A packet numbered `n` and stamped `t` is among those received. */
  ghost predicate Got(received: set<bytes>, n: u64, t: u64) {
    exists d :: d in received && HeaderOf(d).packetNumber == n && HeaderOf(d).timestamp == t
  }

  /** Every datagram of `net` either acknowledges nothing or names a packet among those its
      sender `got`, echoing that packet's timestamp. */
  ghost predicate AcksGenuine(net: set<bytes>, got: set<bytes>) {
    forall d :: d in net ==> Genuine(HeaderOf(d).latestAck, HeaderOf(d).ackTimestampEcho, got)
  }

  ghost predicate Genuine(n: u64, t: u64, got: set<bytes>) {
    (n == 0 && t == 0) || Got(got, n, t)
  }

  ghost predicate LargestReceived(largest: u64, received: set<bytes>) {
    largest == 0 || exists d :: d in received && HeaderOf(d).packetNumber == largest
  }

  /** The sample was computed from the timestamp of a packet that was received. */
  ghost predicate SampleGenuine(x: nonneg, received: set<bytes>) {
    exists d, reading: u64 :: d in received && x == RttSample(HeaderOf(d).timestamp, reading)
  }

  ghost predicate SamplesGenuine(samples: seq<nonneg>, received: set<bytes>) {
    forall i :: 0 <= i < |samples| ==> SampleGenuine(samples[i], received)
  }

  ghost predicate Invariant(w: World) {
    && Sequenced(w.client)
    && AllStored(w.client.recovery.inFlight)
    && NetOk(w.toServer, w.client.conn.localPacketNumber)
    && InNet(w.client.recovery.inFlight, w.toServer)
    && w.received <= w.toServer
    && AcksGenuine(w.toClient, w.received)
    && w.delivered <= w.toClient
    && AcksGenuine(w.toServer, w.delivered)
    && Genuine(w.client.conn.lastReceivedPacket, w.client.conn.lastReceivedTimestamp, w.delivered)
    && LargestReceived(w.client.recovery.largestAcked, w.received)
    && SamplesGenuine(w.client.rttSamples, w.received)
  }

  // ---------------------------------------------------------------- steps of the client

  lemma AddToNet(net: set<bytes>, d: bytes, local: u64)
    requires NetOk(net, local) && local < U64_LIMIT - 1 && HeaderOf(d).packetNumber == local + 1
    ensures NetOk(net + {d}, local + 1)
  {
  }

  lemma NetMore(net: set<bytes>, local: u64, local2: u64)
    requires NetOk(net, local) && local <= local2
    ensures NetOk(net, local2)
  {
  }

  lemma OneOnWire(d: bytes)
    ensures OnWire([d]) == {d} && OnWire([]) == {}
  {
  }

  lemma WireAppend(wire: seq<bytes>, d: bytes)
    ensures OnWire(wire + [d]) == OnWire(wire) + {d}
  {
  }

  lemma SendOnNet(c: Client, payload: bytes, env: SendEnv, net: set<bytes>)
    requires NetOk(net, c.conn.localPacketNumber) && InNet(c.recovery.inFlight, net)
    requires c.conn.localPacketNumber < U64_LIMIT - 1
    ensures var o := Send(c, payload, env); var after := net + OnWire(o.wire);
      && NetOk(after, o.client.conn.localPacketNumber)
      && InNet(o.client.recovery.inFlight, after)
      && o.client.recovery.largestAcked == c.recovery.largestAcked
  {
    hide Send, Outgoing, OnWire, Decode, NetOk;
    SendEffect(c, payload, env);
    var d := Outgoing(NextNumber(c.conn), env.stamp, payload);
    OutgoingStored(NextNumber(c.conn), env.stamp, payload, env.sentTime, false);
    OneOnWire(d);
    NetMore(net, c.conn.localPacketNumber, c.conn.localPacketNumber + 1);
    AddToNet(net, d, c.conn.localPacketNumber);
    assert net + {} == net;
  }

  lemma ResendOneOnNet(o: Outcome, p: Recovery.InFlight, k: nat, env: AckEnv, net: set<bytes>)
    requires NetOk(net + OnWire(o.wire), o.client.conn.localPacketNumber)
    requires InNet(o.client.recovery.inFlight, net + OnWire(o.wire))
    requires o.client.conn.localPacketNumber < U64_LIMIT - 1
    ensures var u := ResendOne(o, p, k, env); var after := net + OnWire(u.wire);
      && NetOk(after, u.client.conn.localPacketNumber)
      && InNet(u.client.recovery.inFlight, after)
      && u.client.recovery.largestAcked == o.client.recovery.largestAcked
  {
    hide ResendOne, Outgoing, OnWire, Decode, NetOk;
    ResendOneEffect(o, p, k, env);
    var c, before := o.client, net + OnWire(o.wire);
    NetMore(before, c.conn.localPacketNumber, c.conn.localPacketNumber + 1);
    if Decode(p.data).Some? && env.ok(k) {
      var payload := Decode(p.data).value.payload;
      var d := Outgoing(NextNumber(c.conn), env.stamp(k), payload);
      OutgoingStored(NextNumber(c.conn), env.stamp(k), payload, env.time(k), true);
      WireAppend(o.wire, d);
      assert net + OnWire(o.wire + [d]) == before + {d};
      AddToNet(before, d, c.conn.localPacketNumber);
    }
  }

  lemma {:induction false} ResendOnNet(c: Client, lost: seq<Recovery.InFlight>, env: AckEnv, net: set<bytes>)
    requires NetOk(net, c.conn.localPacketNumber) && InNet(c.recovery.inFlight, net)
    requires Sequenced(c) && c.conn.localPacketNumber + |lost| < U64_LIMIT
    ensures var o := Resend(c, lost, env); var after := net + OnWire(o.wire);
      && NetOk(after, o.client.conn.localPacketNumber)
      && InNet(o.client.recovery.inFlight, after)
      && o.client.recovery.largestAcked == c.recovery.largestAcked
  {
    hide ResendOne, OnWire, NetOk, InNet, Sequenced;
    if lost == [] {
      OneOnWire([]);
      assert net + {} == net;
    } else {
      var n := |lost| - 1;
      ResendOnNet(c, lost[..n], env, net);
      ResendSequenced(c, lost[..n], env);
      var o := Resend(c, lost[..n], env);
      if !o.failed {
        ResendOneOnNet(o, lost[n], n, env, net);
      }
    }
  }

  lemma KeptInNet(s: Recovery.State, ack: u64, now: u64, net: set<bytes>)
    requires InNet(s.inFlight, net)
    ensures InNet(Recovery.OnAck(s, ack, now).state.inFlight, net)
  {
    hide Recovery.Select;
    var largest := Max(s.largestAcked, ack);
    Recovery.SelectMembers(s.inFlight, Recovery.Kept, ack, largest, now);
    var kept := Recovery.OnAck(s, ack, now).state.inFlight;
    assert forall i :: 0 <= i < |kept| ==> kept[i] in kept;
  }

  lemma ProcessOnNet(c: Client, h: Header, env: AckEnv, net: set<bytes>)
    requires NetOk(net, c.conn.localPacketNumber) && InNet(c.recovery.inFlight, net)
    requires Sequenced(c) && h.latestAck <= c.conn.localPacketNumber
    requires c.conn.localPacketNumber + |c.recovery.inFlight| < U64_LIMIT
    ensures var o := ProcessHeader(c, h, env); var after := net + OnWire(o.wire);
      && NetOk(after, o.client.conn.localPacketNumber)
      && InNet(o.client.recovery.inFlight, after)
      && o.client.recovery.largestAcked == Max(c.recovery.largestAcked, h.latestAck)
  {
    hide CountAcks, Resend, OnWire, NetOk, InNet, Sequenced, RttSample, Recovery.Select;
    var a := Recovery.OnAck(c.recovery, h.latestAck, env.ackNow);
    var rtt := RttSample(h.ackTimestampEcho, env.rttNow);
    var c0 := TakeAck(c, h, a.state);
    var c1 := CountAcks(c0, a.acked, rtt, env.now);
    CountAcksEffect(c0, a.acked, rtt, env.now);
    AckedSequenced(c, c1, h, env.ackNow);
    KeptInNet(c.recovery, h.latestAck, env.ackNow, net);
    LostFewerThanQueued(c, h, env.ackNow);
    ResendOnNet(c1, a.lost, env, net);
  }

  // recorded samples

  lemma {:induction false} CountAcksSamples(c: Client, acked: seq<Recovery.InFlight>, rtt: nonneg, now: real)
    ensures CountAcks(c, acked, rtt, now).rttSamples == c.rttSamples + seq(|acked|, _ => rtt)
  {
    hide Congestion.OnAck;
    if acked != [] {
      CountAcksSamples(c, acked[..|acked| - 1], rtt, now);
    }
  }

  lemma {:induction false} ResendSamples(c: Client, lost: seq<Recovery.InFlight>, env: AckEnv)
    ensures Resend(c, lost, env).client.rttSamples == c.rttSamples
  {
    hide Decode, Outgoing, Congestion.OnLost;
    if lost != [] {
      ResendSamples(c, lost[..|lost| - 1], env);
    }
  }

  /** An ACK records one sample for each packet it acknowledges, all the same. */
  lemma ProcessSamples(c: Client, h: Header, env: AckEnv)
    ensures var n := |Recovery.OnAck(c.recovery, h.latestAck, env.ackNow).acked|;
      ProcessHeader(c, h, env).client.rttSamples
      == c.rttSamples + seq(n, _ => RttSample(h.ackTimestampEcho, env.rttNow))
  {
    hide CountAcks, Resend, RttSample, Recovery.OnAck;
    var a := Recovery.OnAck(c.recovery, h.latestAck, env.ackNow);
    var rtt := RttSample(h.ackTimestampEcho, env.rttNow);
    var c0 := TakeAck(c, h, a.state);
    CountAcksSamples(c0, a.acked, rtt, env.now);
    ResendSamples(CountAcks(c0, a.acked, rtt, env.now), a.lost, env);
  }

  /** An ACK that names nothing acknowledges nothing. */
  lemma NothingNamed(c: Client, now: u64)
    requires Sequenced(c)
    ensures Recovery.OnAck(c.recovery, 0, now).acked == []
  {
    Recovery.SelectNone(c.recovery.inFlight, Recovery.Acked, 0, c.recovery.largestAcked, now);
  }

  lemma MoreSamples(before: seq<nonneg>, n: nat, x: nonneg, received: set<bytes>)
    requires SamplesGenuine(before, received) && (n > 0 ==> SampleGenuine(x, received))
    ensures SamplesGenuine(before + seq(n, _ => x), received)
  {
    hide SampleGenuine;
  }

  lemma SampleFromEcho(t: u64, n: u64, reading: u64, received: set<bytes>)
    requires Got(received, n, t)
    ensures SampleGenuine(RttSample(t, reading), received)
  {
    hide HeaderOf, RttSample;
    var d :| d in received && HeaderOf(d).packetNumber == n && HeaderOf(d).timestamp == t;
    assert RttSample(t, reading) == RttSample(HeaderOf(d).timestamp, reading);
  }

  lemma NewSamplesGenuine(w: World, d: bytes, env: AckEnv)
    requires Invariant(w) && d in w.toClient && Decode(d).Some?
    ensures SamplesGenuine(ProcessHeader(w.client, HeaderOf(d), env).client.rttSamples, w.received)
  {
    hide Decode, Sequenced, NetOk, InNet, AllStored, LargestReceived, RttSample, Recovery.OnAck, ProcessHeader,
      SamplesGenuine, Got;
    var h := HeaderOf(d);
    var acked := Recovery.OnAck(w.client.recovery, h.latestAck, env.ackNow).acked;
    ProcessSamples(w.client, h, env);
    NothingNamed(w.client, env.ackNow);
    if acked != [] {
      assert Genuine(h.latestAck, h.ackTimestampEcho, w.received);
      SampleFromEcho(h.ackTimestampEcho, h.latestAck, env.rttNow, w.received);
    }
    MoreSamples(w.client.rttSamples, |acked|, RttSample(h.ackTimestampEcho, env.rttNow), w.received);
  }

  lemma SamplesStay(samples: seq<nonneg>, received: set<bytes>, more: set<bytes>)
    requires SamplesGenuine(samples, received) && received <= more
    ensures SamplesGenuine(samples, more)
  {
    hide RttSample, HeaderOf;
    forall i | 0 <= i < |samples|
      ensures SampleGenuine(samples[i], more)
    {
      assert SampleGenuine(samples[i], received);
      var d, reading: u64 :| d in received && samples[i] == RttSample(HeaderOf(d).timestamp, reading);
    }
  }

  lemma SendSamples(c: Client, payload: bytes, env: SendEnv)
    ensures Send(c, payload, env).client.rttSamples == c.rttSamples
  {
    hide Outgoing, Congestion.OnSent;
  }

  lemma GenuineUnion(net: set<bytes>, more: set<bytes>, got: set<bytes>, got2: set<bytes>, n: u64, t: u64)
    requires AcksGenuine(net, got) && got <= got2 && Genuine(n, t, got2)
    requires forall d :: d in more ==> HeaderOf(d).latestAck == n && HeaderOf(d).ackTimestampEcho == t
    ensures AcksGenuine(net + more, got2)
  {
    hide HeaderOf;
    forall d | d in net + more
      ensures Genuine(HeaderOf(d).latestAck, HeaderOf(d).ackTimestampEcho, got2)
    {
      GotMore(got, got2, HeaderOf(d).latestAck, HeaderOf(d).ackTimestampEcho);
    }
  }

  lemma ClientSendsKeeps(w: World, payload: bytes, env: SendEnv)
    requires Invariant(w) && Enabled(w, ClientSends(payload, env))
    ensures Invariant(Next(w, ClientSends(payload, env)))
  {
    hide Send, Sequenced, NetOk, InNet, AllStored, OnWire, AcksGenuine, LargestReceived, SamplesGenuine;
    SendSequenced(w.client, payload, env);
    SendOnNet(w.client, payload, env, w.toServer);
    SendSamples(w.client, payload, env);
    SendConserves(w.client, payload, env);
    SendAcks(w.client, payload, env);
    GenuineUnion(w.toServer, OnWire(Send(w.client, payload, env).wire), w.delivered, w.delivered,
                 w.client.conn.lastReceivedPacket, w.client.conn.lastReceivedTimestamp);
  }

  /** In a good world, an ACK on the network names a number the client has used. */
  lemma AckNamesSentNumber(w: World, d: bytes)
    requires Invariant(w) && d in w.toClient
    ensures HeaderOf(d).latestAck <= w.client.conn.localPacketNumber
  {
    hide Decode, Sequenced, AllStored, InNet;
    var h := HeaderOf(d);
    if !(h.latestAck == 0 && h.ackTimestampEcho == 0) {
      var r :| r in w.received && HeaderOf(r).packetNumber == h.latestAck
          && HeaderOf(r).timestamp == h.ackTimestampEcho;
      assert r in w.toServer;
    }
  }

  lemma NewLargestReceived(w: World, d: bytes)
    requires Invariant(w) && d in w.toClient
    ensures LargestReceived(Max(w.client.recovery.largestAcked, HeaderOf(d).latestAck), w.received)
  {
    hide Decode, Sequenced, AllStored, InNet, NetOk;
    var h := HeaderOf(d);
    if !(h.latestAck == 0 && h.ackTimestampEcho == 0) {
      var r :| r in w.received && HeaderOf(r).packetNumber == h.latestAck
          && HeaderOf(r).timestamp == h.ackTimestampEcho;
    }
  }

  lemma DeliveredGenuine(delivered: set<bytes>, d: bytes)
    requires Decode(d).Some?
    ensures Genuine(Decode(d).value.header.packetNumber, Decode(d).value.header.timestamp, delivered + {d})
  {
    hide Decode;
    assert d in delivered + {d} && HeaderOf(d) == Decode(d).value.header;
  }

  lemma ClientReceivesKeeps(w: World, d: bytes, env: AckEnv, done: u64)
    requires Invariant(w) && Enabled(w, ClientReceives(d, env, done))
    ensures Invariant(Next(w, ClientReceives(d, env, done)))
  {
    hide Decode, Sequenced, NetOk, InNet, AllStored, OnWire, AcksGenuine, LargestReceived, ProcessHeader,
        SamplesGenuine;
    if Decode(d).Some? {
      var h := Decode(d).value.header;
      AckNamesSentNumber(w, d);
      NewLargestReceived(w, d);
      ProcessOnNet(w.client, h, env, w.toServer);
      AckSequenced(w.client, h, env);
      NewSamplesGenuine(w, d, env);
      HeaderConserves(w.client, h, env);
      ProcessAcks(w.client, h, env);
      DeliveredGenuine(w.delivered, d);
      GenuineUnion(w.toServer, OnWire(ProcessHeader(w.client, h, env).wire), w.delivered, w.delivered + {d},
                   h.packetNumber, h.timestamp);
    } else {
      GenuineUnion(w.toServer, {}, w.delivered, w.delivered + {d}, 0, 0);
      GotMore(w.delivered, w.delivered + {d}, w.client.conn.lastReceivedPacket, w.client.conn.lastReceivedTimestamp);
      OneOnWire(d);
      assert w.toServer + {} == w.toServer;
    }
  }

  // ---------------------------------------------------------------- steps of the server

  lemma RepliesGenuine(sessions: Server.Clients, d: bytes, env: Server.Env, b: bytes)
    requires b in Sent(Server.HandleDatagram(sessions, ME, d, env).attempts)
    ensures var h := HeaderOf(b);
      (h.latestAck == 0 && h.ackTimestampEcho == 0)
      || (h.latestAck == HeaderOf(d).packetNumber && h.ackTimestampEcho == HeaderOf(d).timestamp)
  {
    hide Server.Handle, Decode;
    var attempts := Server.HandleDatagram(sessions, ME, d, env).attempts;
    var a :| a in attempts && a.ok && a.datagram == b;
    var i :| 0 <= i < |attempts| && attempts[i] == a;
    if Decode(d).Some? {
      ServerRuns.HandleOnePacket(Server.SessionOf(sessions, ME), Decode(d).value, env);
    }
  }

  lemma ServerReceivesKeeps(w: World, d: bytes, env: Server.Env)
    requires Invariant(w) && Enabled(w, ServerReceives(d, env))
    ensures Invariant(Next(w, ServerReceives(d, env)))
  {
    hide Server.HandleDatagram, HeaderOf, Sequenced, NetOk, InNet, AllStored, Sent, SamplesGenuine;
    var u := Next(w, ServerReceives(d, env));
    var replies := Sent(Server.HandleDatagram(w.sessions, ME, d, env).attempts);
    SamplesStay(w.client.rttSamples, w.received, u.received);
    forall b | b in u.toClient
      ensures Genuine(HeaderOf(b).latestAck, HeaderOf(b).ackTimestampEcho, u.received)
    {
      if b in replies {
        RepliesGenuine(w.sessions, d, env, b);
        assert d in u.received;
      } else {
        GotMore(w.received, u.received, HeaderOf(b).latestAck, HeaderOf(b).ackTimestampEcho);
      }
    }
  }

  lemma GotMore(some: set<bytes>, more: set<bytes>, n: u64, t: u64)
    requires some <= more
    ensures Got(some, n, t) ==> Got(more, n, t)
  {
    hide HeaderOf;
  }

  lemma StepKeeps(w: World, a: Action)
    requires Invariant(w) && Enabled(w, a)
    ensures Invariant(Next(w, a))
  {
    match a
    case ClientSends(payload, env) => hide *; ClientSendsKeeps(w, payload, env);
    case ServerReceives(d, env) => hide *; ServerReceivesKeeps(w, d, env);
    case ClientReceives(d, env, done) => hide *; ClientReceivesKeeps(w, d, env, done);
    case OthersSend(addr, data, env) =>
      hide Server.HandleDatagram, Sequenced, NetOk, InNet, AllStored, AcksGenuine, LargestReceived, SamplesGenuine;
    case Tick(_) =>
      hide Sequenced, NetOk, InNet, AllStored, AcksGenuine, LargestReceived, SamplesGenuine;
  }

  lemma StartInvariant(now: real, clock: u64)
    ensures Invariant(Start(now, clock))
  {
  }

  /** The invariant holds in every reachable world: whatever is lost, duplicated, reordered
      or delayed, whichever sends fail, whatever the clocks read, and whatever other hosts do
      to the server. */
  lemma {:induction false} SystemInvariant(now: real, clock: u64, actions: seq<Action>)
    requires ValidRun(Start(now, clock), actions)
    ensures Invariant(Run(Start(now, clock), actions))
  {
    hide Invariant, Next, Enabled, Start;
    if actions == [] {
      StartInvariant(now, clock);
    } else {
      var n := |actions| - 1;
      assert forall i :: 0 <= i <= n ==> actions[..n][..i] == actions[..i];
      SystemInvariant(now, clock, actions[..n]);
      StepKeeps(Run(Start(now, clock), actions[..n]), actions[n]);
    }
  }

  lemma ReachableInvariant(w: World)
    requires Reachable(w)
    ensures Invariant(w)
  {
    hide Invariant, Run, ValidRun, Start;
    var now, clock, actions :| ValidRun(Start(now, clock), actions) && w == Run(Start(now, clock), actions);
    SystemInvariant(now, clock, actions);
  }

  // ---------------------------------------------------------------- what it means for ACKs

  /** Effect of any ACK delivery in any reachable world, at any clock reading. The ACK names a
      number the client used; a stale one acknowledges nothing; loss is by timeout only and
      nothing kept is timed out; the queue is cut in three consecutive pieces exactly when its
      ages are in order. */
  lemma AckEffect(w: World, d: bytes, env: AckEnv, done: u64)
    requires Reachable(w) && Enabled(w, ClientReceives(d, env, done))
    ensures var s, a := w.client.recovery, HeaderOf(d).latestAck;
      var o := Recovery.OnAck(s, a, env.ackNow);
      && a <= w.client.conn.localPacketNumber
      && (a <= s.largestAcked ==> o.acked == [])
      && (forall p :: p in o.lost <==> p in s.inFlight && p.packetNumber > a && Recovery.TimedOut(p, env.ackNow))
      && (forall p :: p in o.state.inFlight ==> !Recovery.TimedOut(p, env.ackNow))
      && (o.acked + o.lost + o.state.inFlight == s.inFlight <==> Recovery.AgesInOrder(s.inFlight, a, env.ackNow))
  {
    hide Decode, Reachable, Recovery.OnAck, NetOk, InNet, AllStored, AcksGenuine, LargestReceived, SamplesGenuine,
      Recovery.Ordered, Recovery.AgesInOrder;
    ReachableInvariant(w);
    AckNamesSentNumber(w, d);
    var s, a := w.client.recovery, HeaderOf(d).latestAck;
    Recovery.AckCutsOrderedQueue(s, a, env.ackNow);
    Recovery.AckSplitsAnyQueue(s, a, env.ackNow);
    if a <= s.largestAcked {
      Recovery.StaleAckAcknowledgesNothing(s, a, env.ackNow);
    }
  }

  /** Every packet an ACK acknowledges has a number at most that of a packet the server
      received; so has the largest acknowledged number. */
  lemma AckedBoundedByReceived(w: World, d: bytes, env: AckEnv, done: u64, p: Recovery.InFlight)
    requires Reachable(w) && Enabled(w, ClientReceives(d, env, done))
    requires p in Recovery.OnAck(w.client.recovery, HeaderOf(d).latestAck, env.ackNow).acked
    ensures exists r :: r in w.received && HeaderOf(r).packetNumber == HeaderOf(d).latestAck >= p.packetNumber
    ensures LargestReceived(w.client.recovery.largestAcked, w.received)
  {
    hide Decode, Reachable, Recovery.OnAck, NetOk, InNet, AllStored;
    ReachableInvariant(w);
    Recovery.AckSplitsAnyQueue(w.client.recovery, HeaderOf(d).latestAck, env.ackNow);
    assert p in w.client.recovery.inFlight;
    var i :| 0 <= i < |w.client.recovery.inFlight| && w.client.recovery.inFlight[i] == p;
    assert p.packetNumber > w.client.recovery.largestAcked;
  }

  /** An ACK that names a packet belongs to exactly one datagram the client ever sent, the one
      with that number; its echo is the timestamp written into that datagram, whatever the
      network does and whatever the clocks read. */
  lemma EchoGenuine(w: World, d: bytes) returns (s: bytes)
    requires Reachable(w) && d in w.toClient && HeaderOf(d).latestAck > 0
    ensures s in w.received && s in w.toServer && HeaderOf(s).packetNumber == HeaderOf(d).latestAck
    ensures forall t :: t in w.toServer && HeaderOf(t).packetNumber == HeaderOf(d).latestAck ==> t == s
    ensures HeaderOf(s).timestamp == HeaderOf(d).ackTimestampEcho
  {
    hide Decode, Reachable, InNet, AllStored, Sequenced, SamplesGenuine;
    ReachableInvariant(w);
    var h := HeaderOf(d);
    s :| s in w.received && HeaderOf(s).packetNumber == h.latestAck && HeaderOf(s).timestamp == h.ackTimestampEcho;
  }

  /** Every round-trip sample the client has recorded was computed from the timestamp of one of
      its own packets that the server received. */
  lemma HistoryGenuine(w: World, i: nat) returns (s: bytes, reading: u64)
    requires Reachable(w) && i < |w.client.rttSamples|
    ensures s in w.received && s in w.toServer
    ensures w.client.rttSamples[i] == RttSample(HeaderOf(s).timestamp, reading)
  {
    hide Decode, Reachable, InNet, AllStored, Sequenced, NetOk, AcksGenuine, LargestReceived, RttSample;
    ReachableInvariant(w);
    assert SampleGenuine(w.client.rttSamples[i], w.received);
    s, reading :| s in w.received && w.client.rttSamples[i] == RttSample(HeaderOf(s).timestamp, reading);
  }

  /** In every reachable world, any list of ACKs that leaves nothing timed out has the effect
      of its highest alone, in whatever order it is handled. */
  lemma ReachableAckOrder(w: World, acks: seq<Recovery.Ack>, now: u64)
    requires Reachable(w)
    requires Recovery.NothingTimedOut(w.client.recovery, acks + [Recovery.Ack(Recovery.Highest(acks), now)])
    ensures var r := Recovery.OnAcks(w.client.recovery, acks);
      var one := Recovery.OnAck(w.client.recovery, Recovery.Highest(acks), now);
      r.acked == one.acked && r.lost == one.lost == [] && r.state == one.state
  {
    hide Reachable, Recovery.OnAcks, Recovery.OnAck, Recovery.NothingTimedOut, Recovery.Highest;
    ReachableInvariant(w);
    Recovery.AckOrderIrrelevant(w.client.recovery, acks, now);
  }

  /** Acknowledgements are genuine in the other direction too: every packet the client sends
      acknowledges nothing or a server packet that was delivered to it, echoing that packet's
      timestamp. */
  lemma ClientAcksGenuine(w: World, d: bytes)
    requires Reachable(w) && d in w.toServer
    ensures Genuine(HeaderOf(d).latestAck, HeaderOf(d).ackTimestampEcho, w.delivered)
    ensures w.delivered <= w.toClient
  {
    hide Decode, Reachable, Genuine, Sequenced, NetOk, AllStored, LargestReceived;
    ReachableInvariant(w);
  }

  /** When no older packet is in flight, what an ACK acknowledges was received: the stored
      datagram itself is among those that reached the server. */
  lemma SelectiveAckMeansReceived(w: World, d: bytes, env: AckEnv, done: u64, p: Recovery.InFlight)
    requires Reachable(w) && Enabled(w, ClientReceives(d, env, done))
    requires w.client.recovery.inFlight == [] || w.client.recovery.inFlight[0].packetNumber >= HeaderOf(d).latestAck
    requires p in Recovery.OnAck(w.client.recovery, HeaderOf(d).latestAck, env.ackNow).acked
    ensures p.data in w.received
  {
    hide Reachable, Recovery.OnAck, Recovery.Ordered;
    ReachableInvariant(w);
    var s, a := w.client.recovery, HeaderOf(d).latestAck;
    Recovery.AckIsSelectiveIffFrontIsNamed(s, a, env.ackNow);
    AckedBoundedByReceived(w, d, env, done, p);
    Recovery.AckSplitsAnyQueue(s, a, env.ackNow);
    var r :| r in w.received && HeaderOf(r).packetNumber == a;
    var i :| 0 <= i < |s.inFlight| && s.inFlight[i] == p;
    assert HeaderOf(p.data).packetNumber == p.packetNumber == a;
    assert p.data == r;
  }
}
