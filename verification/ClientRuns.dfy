/** Runs of the sender: arbitrary sequences of send and ACK calls, with arbitrary
    datagrams and arbitrary send failures. */
module ClientRuns {
  import opened Numbers
  import opened Wire
  import opened Connection
  import opened Client
  import Recovery
  import Pacing
  import Congestion

  datatype Call =
    | SendCall(payload: bytes, sendEnv: SendEnv)
    | AckCall(data: bytes, ackEnv: AckEnv)

  function Apply(c: Client, call: Call): Outcome {
    match call
    case SendCall(payload, env) => Send(c, payload, env)
    case AckCall(data, env) => ProcessAck(c, data, env)
  }

  function Run(c: Client, calls: seq<Call>): Client {
    if calls == [] then c else Apply(Run(c, calls[..|calls| - 1]), calls[|calls| - 1]).client
  }

  // ---------------------------------------------------------------- what one call does

  lemma SendEffect(c: Client, payload: bytes, env: SendEnv)
    ensures var o, d := Send(c, payload, env), Outgoing(NextNumber(c.conn), env.stamp, payload);
      && o.failed == !env.ok
      && o.wire == (if env.ok then [d] else [])
      && o.client.conn == NextNumber(c.conn)
      && o.client.bytesAcked == c.bytesAcked && o.client.packetsAcked == c.packetsAcked
      && o.client.bytesSent == c.bytesSent + (if env.ok then |payload| + HEADER_SIZE else 0)
      && o.client.packetsSent == c.packetsSent + (if env.ok then 1 else 0)
      && o.client.bbr == (if env.ok then Congestion.OnSent(c.bbr, env.sentNow) else c.bbr)
      && o.client.recovery == (if env.ok
           then Recovery.OnSent(c.recovery,
                  Recovery.InFlight(NextNumber(c.conn).localPacketNumber, env.sentTime,
                                    |payload| + HEADER_SIZE, d, false))
           else c.recovery)
      && o.client.pacer == Pacing.Schedule(c.pacer, |payload| + HEADER_SIZE, env.paceNow).state
           .(rate := if env.ok then Pacing.Floored(SendingRate(o.client.bbr)) else c.pacer.rate)
  {
    hide Encode, Congestion.OnSent;
  }

  lemma {:induction false} CountAcksEffect(c: Client, acked: seq<Recovery.InFlight>, rtt: nonneg, now: real)
    ensures var u := CountAcks(c, acked, rtt, now);
      && u.conn == c.conn && u.recovery == c.recovery && u.pacer == c.pacer
      && u.bytesSent == c.bytesSent && u.packetsSent == c.packetsSent
  {
    hide Congestion.OnAck;
    if acked != [] {
      CountAcksEffect(c, acked[..|acked| - 1], rtt, now);
    }
  }

  lemma ResendOneEffect(o: Outcome, p: Recovery.InFlight, k: nat, env: AckEnv)
    ensures var u, c := ResendOne(o, p, k, env), o.client;
      && u.client.conn == NextNumber(c.conn) && u.client.pacer == c.pacer
      && u.client.bytesSent == c.bytesSent && u.client.packetsSent == c.packetsSent
      && u.client.bytesAcked == c.bytesAcked && u.client.packetsAcked == c.packetsAcked
      && u.client.bbr == Congestion.OnLost(c.bbr, env.now)
      && (if Decode(p.data).None? then u.wire == o.wire && !u.failed && u.client.recovery == c.recovery
          else if !env.ok(k) then u.wire == o.wire && u.failed && u.client.recovery == c.recovery
          else var d := Outgoing(NextNumber(c.conn), env.stamp(k), Decode(p.data).value.payload);
            && u.wire == o.wire + [d] && !u.failed
            && u.client.recovery == Recovery.OnSent(c.recovery,
                 Recovery.InFlight(NextNumber(c.conn).localPacketNumber, env.time(k), |d|, d, true)))
  {
    hide Encode, Decode, Congestion.OnLost;
  }

  lemma {:induction false} ResendEffect(c: Client, lost: seq<Recovery.InFlight>, env: AckEnv)
    ensures var u := Resend(c, lost, env).client;
      && u.pacer == c.pacer
      && u.bytesSent == c.bytesSent && u.packetsSent == c.packetsSent
      && u.bytesAcked == c.bytesAcked && u.packetsAcked == c.packetsAcked
  {
    hide ResendOne;
    if lost != [] {
      var n := |lost| - 1;
      ResendEffect(c, lost[..n], env);
      ResendOneEffect(Resend(c, lost[..n], env), lost[n], n, env);
    }
  }

  /** The round trip recorded for an echo: one millisecond without echo, else the microseconds
      since it, and zero when the clock has stepped back behind it. */
  lemma RttSampleExact(echo: u64, now: u64)
    ensures RttSample(echo, now) * 1000000.0
         == if echo == 0 then 1000.0 else (if now <= echo then 0 else now - echo) as real
  {
  }

  // ---------------------------------------------------------------- stored packets

  /** A stored packet carries its own encoding: right size, right number. */
  ghost predicate Stored(p: Recovery.InFlight) {
    p.size == |p.data| && Decode(p.data).Some? && Decode(p.data).value.header.packetNumber == p.packetNumber
  }

  ghost predicate AllStored(q: seq<Recovery.InFlight>) {
    forall i :: 0 <= i < |q| ==> Stored(q[i])
  }

  lemma OutgoingStored(conn: Conn, stamp: u64, payload: bytes, time: u64, retransmitted: bool)
    ensures var d := Outgoing(conn, stamp, payload);
      && Stored(Recovery.InFlight(conn.localPacketNumber, time, |d|, d, retransmitted))
      && Decode(d).value.payload == payload
      && Decode(d).value.header
         == Header(conn.localPacketNumber, stamp, conn.lastReceivedPacket, conn.lastReceivedTimestamp)
  {
    DecodeEncode(Packet(Header(conn.localPacketNumber, stamp, conn.lastReceivedPacket, conn.lastReceivedTimestamp),
        payload));
  }

  lemma SelectStored(q: seq<Recovery.InFlight>, v: Recovery.Verdict, ack: u64, largest: u64, now: u64)
    requires AllStored(q)
    ensures AllStored(Recovery.Select(q, v, ack, largest, now))
  {
    hide Stored;
    Recovery.SelectMembers(q, v, ack, largest, now);
    var r := Recovery.Select(q, v, ack, largest, now);
    assert forall i :: 0 <= i < |r| ==> r[i] in r;
  }

  // ---------------------------------------------------------------- conservation

  /** Payloads with their multiplicity, total datagram bytes, and packet count. */
  datatype Tally = Tally(payloads: multiset<bytes>, bytes: nat, packets: nat)

  const ZERO := Tally(multiset{}, 0, 0)

  function Plus(a: Tally, b: Tally): Tally {
    Tally(a.payloads + b.payloads, a.bytes + b.bytes, a.packets + b.packets)
  }

  function PayloadOf(data: bytes): bytes {
    if |data| < HEADER_SIZE then [] else data[HEADER_SIZE..]
  }

  function One(p: Recovery.InFlight): Tally {
    Tally(multiset{PayloadOf(p.data)}, p.size, 1)
  }

  function TallyOf(q: seq<Recovery.InFlight>): Tally {
    if q == [] then ZERO else Plus(TallyOf(q[..|q| - 1]), One(q[|q| - 1]))
  }

  lemma EmptyTally()
    ensures TallyOf([]) == ZERO
  {
  }

  lemma TallyAppend(q: seq<Recovery.InFlight>, p: Recovery.InFlight)
    ensures TallyOf(q + [p]) == Plus(TallyOf(q), One(p))
  {
    assert (q + [p])[..|q|] == q;
  }

  lemma {:induction false} TallySelect(q: seq<Recovery.InFlight>, ack: u64, largest: u64, now: u64)
    ensures TallyOf(q) == Plus(Plus(TallyOf(Recovery.Select(q, Recovery.Acked, ack, largest, now)),
                                    TallyOf(Recovery.Select(q, Recovery.Lost, ack, largest, now))),
                               TallyOf(Recovery.Select(q, Recovery.Kept, ack, largest, now)))
  {
    if q == [] {
      hide Plus;
      EmptyTally();
      TallyZero(ZERO);
    } else {
      hide One, Plus, TallyOf, Recovery.Select;
      var init, p := q[..|q| - 1], q[|q| - 1];
      TallySelect(init, ack, largest, now);
      assert q == init + [p];
      TallyAppend(init, p);
      var a, l, k := Recovery.Select(init, Recovery.Acked, ack, largest, now),
        Recovery.Select(init, Recovery.Lost, ack, largest, now),
        Recovery.Select(init, Recovery.Kept, ack, largest, now);
      Recovery.SelectStep(init, p, Recovery.Acked, ack, largest, now);
      Recovery.SelectStep(init, p, Recovery.Lost, ack, largest, now);
      Recovery.SelectStep(init, p, Recovery.Kept, ack, largest, now);
      TallyAppend(a, p);
      TallyAppend(l, p);
      TallyAppend(k, p);
      AddToOne(TallyOf(a), TallyOf(l), TallyOf(k), One(p));
    }
  }

  lemma AddToOne(a: Tally, l: Tally, k: Tally, x: Tally)
    ensures Plus(Plus(Plus(a, l), k), x) == Plus(Plus(Plus(a, x), l), k)
         == Plus(Plus(a, Plus(l, x)), k) == Plus(Plus(a, l), Plus(k, x))
  {
    assert Plus(Plus(Plus(a, l), k), x).payloads == Plus(Plus(Plus(a, x), l), k).payloads;
    assert Plus(Plus(a, Plus(l, x)), k).payloads == Plus(Plus(a, l), Plus(k, x)).payloads;
  }

  lemma {:induction false} CountAcksTally(c: Client, acked: seq<Recovery.InFlight>, rtt: nonneg, now: real)
    ensures var u := CountAcks(c, acked, rtt, now);
      && u.bytesAcked == c.bytesAcked + TallyOf(acked).bytes
      && u.packetsAcked == c.packetsAcked + TallyOf(acked).packets
  {
    hide Congestion.OnAck;
    if acked != [] {
      CountAcksTally(c, acked[..|acked| - 1], rtt, now);
    }
  }

  /** Lost packets that retransmission does not put back in flight. */
  function Unsent(c: Client, lost: seq<Recovery.InFlight>, env: AckEnv): seq<Recovery.InFlight> {
    if lost == [] then []
    else
      var n := |lost| - 1;
      var before := Unsent(c, lost[..n], env);
      if Resend(c, lost[..n], env).failed || Decode(lost[n].data).None? || !env.ok(n)
          then before + [lost[n]] else before
  }

  lemma StoredDecodes(p: Recovery.InFlight)
    requires Stored(p)
    ensures Decode(p.data).Some?
  {
  }

  lemma ResendOneTally(o: Outcome, p: Recovery.InFlight, k: nat, env: AckEnv)
    requires Stored(p) && AllStored(o.client.recovery.inFlight)
    ensures var q := ResendOne(o, p, k, env).client.recovery.inFlight;
      && AllStored(q)
      && TallyOf(q) == if env.ok(k) then Plus(TallyOf(o.client.recovery.inFlight), One(p))
          else TallyOf(o.client.recovery.inFlight)
  {
    hide ResendOne, Encode, Decode, Outgoing, Stored, One, Plus, TallyOf;
    StoredDecodes(p);
    ResendOneEffect(o, p, k, env);
    if env.ok(k) {
      var conn := NextNumber(o.client.conn);
      var d := Outgoing(conn, env.stamp(k), Decode(p.data).value.payload);
      var again := Recovery.InFlight(conn.localPacketNumber, env.time(k), |d|, d, true);
      RenumberedTally(conn, env.stamp(k), p, env.time(k));
      TallyAppend(o.client.recovery.inFlight, again);
      AppendStored(o.client.recovery.inFlight, again);
    }
  }

  /** The same payload under a new number: stored properly, same size, same payload. */
  lemma RenumberedTally(conn: Conn, stamp: u64, p: Recovery.InFlight, time: u64)
    requires Stored(p)
    ensures var d := Outgoing(conn, stamp, Decode(p.data).value.payload);
      var again := Recovery.InFlight(conn.localPacketNumber, time, |d|, d, true);
      Stored(again) && One(again) == One(p)
  {
    hide Encode, Decode;
    OutgoingStored(conn, stamp, Decode(p.data).value.payload, time, true);
  }

  lemma AppendStored(q: seq<Recovery.InFlight>, p: Recovery.InFlight)
    requires AllStored(q) && Stored(p)
    ensures AllStored(q + [p])
  {
    hide Stored;
  }

  lemma PlusAssociative(a: Tally, b: Tally, c: Tally)
    ensures Plus(Plus(a, b), c) == Plus(a, Plus(b, c)) == Plus(Plus(a, c), b)
  {
  }

  lemma {:induction false} ResendTally(c: Client, lost: seq<Recovery.InFlight>, env: AckEnv)
    requires AllStored(lost) && AllStored(c.recovery.inFlight)
    ensures var o := Resend(c, lost, env);
      && AllStored(o.client.recovery.inFlight)
      && Plus(TallyOf(o.client.recovery.inFlight), TallyOf(Unsent(c, lost, env)))
         == Plus(TallyOf(c.recovery.inFlight), TallyOf(lost))
      && (!o.failed ==> Unsent(c, lost, env) == [])
  {
    hide ResendOne, One, Plus, TallyOf, Stored, Decode;
    if lost == [] {
    } else {
      var n := |lost| - 1;
      var init, p := lost[..n], lost[n];
      ResendTally(c, init, env);
      var o := Resend(c, init, env);
      assert lost == init + [p];
      TallyAppend(init, p);
      var before := Unsent(c, init, env);
      PlusAssociative(TallyOf(c.recovery.inFlight), TallyOf(init), One(p));
      PlusAssociative(TallyOf(o.client.recovery.inFlight), TallyOf(before), One(p));
      assert Decode(p.data).Some? by { StoredDecodes(p); }
      TallyAppend(before, p);
      if !o.failed {
        ResendOneTally(o, p, n, env);
        ResendOneEffect(o, p, n, env);
      }
    }
  }

  /** What one call accepts from its caller, acknowledges, and gives up on. */
  function AcceptedBy(c: Client, call: Call): Tally {
    match call
    case SendCall(payload, env) => if env.ok then Tally(multiset{payload}, |payload| + HEADER_SIZE, 1) else ZERO
    case AckCall(_, _) => ZERO
  }

  function AckedBy(c: Client, call: Call): Tally {
    match call
    case SendCall(_, _) => ZERO
    case AckCall(data, env) =>
      if Decode(data).None? then ZERO
      else TallyOf(Recovery.OnAck(c.recovery, Decode(data).value.header.latestAck, env.ackNow).acked)
  }

  function DroppedBy(c: Client, call: Call): Tally {
    match call
    case SendCall(_, _) => ZERO
    case AckCall(data, env) =>
      if Decode(data).None? then ZERO
      else
        var h := Decode(data).value.header;
        var a := Recovery.OnAck(c.recovery, h.latestAck, env.ackNow);
        TallyOf(Unsent(CountAcks(TakeAck(c, h, a.state), a.acked, RttSample(h.ackTimestampEcho, env.rttNow), env.now),
                       a.lost, env))
  }

  lemma FreshTally(conn: Conn, stamp: u64, payload: bytes, time: u64)
    ensures var d := Outgoing(conn, stamp, payload);
      var p := Recovery.InFlight(conn.localPacketNumber, time, |d|, d, false);
      |d| == |payload| + HEADER_SIZE && Stored(p) && One(p) == Tally(multiset{payload}, |payload| + HEADER_SIZE, 1)
  {
    hide Encode, Decode;
    OutgoingStored(conn, stamp, payload, time, false);
  }

  lemma SendConserves(c: Client, payload: bytes, env: SendEnv)
    requires AllStored(c.recovery.inFlight)
    ensures var u, call := Send(c, payload, env).client, SendCall(payload, env);
      && AllStored(u.recovery.inFlight)
      && TallyOf(u.recovery.inFlight) == Plus(TallyOf(c.recovery.inFlight), AcceptedBy(c, call))
      && u.bytesSent == c.bytesSent + AcceptedBy(c, call).bytes
      && u.packetsSent == c.packetsSent + AcceptedBy(c, call).packets
      && u.bytesAcked == c.bytesAcked && u.packetsAcked == c.packetsAcked
  {
    hide Send, Encode, Outgoing, Stored, One, Plus, TallyOf;
    SendEffect(c, payload, env);
    if env.ok {
      var conn := NextNumber(c.conn);
      var d := Outgoing(conn, env.stamp, payload);
      var p := Recovery.InFlight(conn.localPacketNumber, env.sentTime, |d|, d, false);
      FreshTally(conn, env.stamp, payload, env.sentTime);
      TallyAppend(c.recovery.inFlight, p);
      AppendStored(c.recovery.inFlight, p);
    } else {
      TallyZero(TallyOf(c.recovery.inFlight));
    }
  }

  lemma AckConserves(c: Client, data: bytes, env: AckEnv)
    requires AllStored(c.recovery.inFlight)
    ensures var o, call := ProcessAck(c, data, env), AckCall(data, env);
      && AllStored(o.client.recovery.inFlight)
      && TallyOf(c.recovery.inFlight)
         == Plus(Plus(TallyOf(o.client.recovery.inFlight), AckedBy(c, call)), DroppedBy(c, call))
      && o.client.bytesSent == c.bytesSent && o.client.packetsSent == c.packetsSent
      && o.client.bytesAcked == c.bytesAcked + AckedBy(c, call).bytes
      && o.client.packetsAcked == c.packetsAcked + AckedBy(c, call).packets
      && (!o.failed ==> DroppedBy(c, call) == ZERO)
  {
    hide Decode, CountAcks, Resend, TallyOf, Recovery.Select, Unsent, Stored, Plus;
    match Decode(data)
    case None => TallyZero(TallyOf(c.recovery.inFlight)); EmptyTally();
    case Some(packet) => HeaderConserves(c, packet.header, env);
  }

  lemma TallyZero(t: Tally)
    ensures Plus(t, ZERO) == t == Plus(ZERO, t)
  {
  }

  lemma HeaderConserves(c: Client, h: Header, env: AckEnv)
    requires AllStored(c.recovery.inFlight)
    ensures var o, a := ProcessHeader(c, h, env), Recovery.OnAck(c.recovery, h.latestAck, env.ackNow);
      var rtt := RttSample(h.ackTimestampEcho, env.rttNow);
      var unsent := TallyOf(Unsent(CountAcks(TakeAck(c, h, a.state), a.acked, rtt, env.now), a.lost, env));
      && AllStored(o.client.recovery.inFlight)
      && TallyOf(c.recovery.inFlight) == Plus(Plus(TallyOf(o.client.recovery.inFlight), TallyOf(a.acked)), unsent)
      && o.client.bytesSent == c.bytesSent && o.client.packetsSent == c.packetsSent
      && o.client.bytesAcked == c.bytesAcked + TallyOf(a.acked).bytes
      && o.client.packetsAcked == c.packetsAcked + TallyOf(a.acked).packets
      && (!o.failed ==> unsent == ZERO)
  {
    hide CountAcks, Resend, TallyOf, Recovery.Select, Unsent, Stored, Plus, RttSample;
    var rtt := RttSample(h.ackTimestampEcho, env.rttNow);
    var largest := Max(c.recovery.largestAcked, h.latestAck);
    var a := Recovery.OnAck(c.recovery, h.latestAck, env.ackNow);
    TallySelect(c.recovery.inFlight, h.latestAck, largest, env.ackNow);
    SelectStored(c.recovery.inFlight, Recovery.Lost, h.latestAck, largest, env.ackNow);
    SelectStored(c.recovery.inFlight, Recovery.Kept, h.latestAck, largest, env.ackNow);
    var c0 := TakeAck(c, h, a.state);
    var c1 := CountAcks(c0, a.acked, rtt, env.now);
    CountAcksEffect(c0, a.acked, rtt, env.now);
    CountAcksTally(c0, a.acked, rtt, env.now);
    ResendTally(c1, a.lost, env);
    ResendEffect(c1, a.lost, env);
    EmptyTally();
    var o := Resend(c1, a.lost, env);
    Rearrange(TallyOf(a.acked), TallyOf(a.lost), TallyOf(a.state.inFlight), TallyOf(o.client.recovery.inFlight),
              TallyOf(Unsent(c1, a.lost, env)));
  }

  lemma Rearrange(acked: Tally, lost: Tally, kept: Tally, queue: Tally, unsent: Tally)
    requires Plus(queue, unsent) == Plus(kept, lost)
    ensures Plus(Plus(acked, lost), kept) == Plus(Plus(queue, acked), unsent)
  {
    assert Plus(Plus(acked, lost), kept) == Plus(acked, Plus(kept, lost));
    assert Plus(Plus(queue, acked), unsent) == Plus(acked, Plus(queue, unsent));
  }

  // whole runs

  function Accepted(c: Client, calls: seq<Call>): Tally {
    if calls == [] then ZERO
    else Plus(Accepted(c, calls[..|calls| - 1]), AcceptedBy(Run(c, calls[..|calls| - 1]), calls[|calls| - 1]))
  }

  function Acknowledged(c: Client, calls: seq<Call>): Tally {
    if calls == [] then ZERO
    else Plus(Acknowledged(c, calls[..|calls| - 1]), AckedBy(Run(c, calls[..|calls| - 1]), calls[|calls| - 1]))
  }

  function Dropped(c: Client, calls: seq<Call>): Tally {
    if calls == [] then ZERO
    else Plus(Dropped(c, calls[..|calls| - 1]), DroppedBy(Run(c, calls[..|calls| - 1]), calls[|calls| - 1]))
  }

  /** The call must retransmit, and one of its retransmissions is refused by the socket. */
  ghost predicate RetransmissionFails(c: Client, call: Call) {
    match call
    case SendCall(_, _) => false
    case AckCall(data, env) =>
      && Decode(data).Some?
      && exists k :: 0 <= k < |Recovery.OnAck(c.recovery, Decode(data).value.header.latestAck, env.ackNow).lost|
          && !env.ok(k)
  }

  ghost predicate NoRetransmissionFails(c: Client, calls: seq<Call>) {
    forall i :: 0 <= i < |calls| ==> !RetransmissionFails(Run(c, calls[..i]), calls[i])
  }

  /** The books of a run: everything accepted is acknowledged, in flight, or given up. */
  ghost predicate Balanced(c0: Client, calls: seq<Call>) {
    var c := Run(c0, calls);
    && AllStored(c.recovery.inFlight)
    && Accepted(c0, calls) == Plus(Plus(TallyOf(c.recovery.inFlight), Acknowledged(c0, calls)), Dropped(c0, calls))
    && c.bytesSent == Accepted(c0, calls).bytes && c.packetsSent == Accepted(c0, calls).packets
    && c.bytesAcked == Acknowledged(c0, calls).bytes && c.packetsAcked == Acknowledged(c0, calls).packets
  }

  lemma Balance4(inFlight: Tally, acked: Tally, dropped: Tally, queue: Tally, a: Tally, d: Tally)
    requires inFlight == Plus(Plus(queue, a), d)
    ensures Plus(Plus(inFlight, acked), dropped) == Plus(Plus(queue, Plus(acked, a)), Plus(dropped, d))
  {
    assert Plus(Plus(inFlight, acked), dropped).payloads
        == Plus(Plus(queue, Plus(acked, a)), Plus(dropped, d)).payloads;
  }

  lemma BalanceAccept(queue: Tally, acked: Tally, dropped: Tally, x: Tally)
    ensures Plus(Plus(Plus(queue, acked), dropped), x) == Plus(Plus(Plus(queue, x), acked), dropped)
  {
    assert Plus(Plus(Plus(queue, acked), dropped), x).payloads == Plus(Plus(Plus(queue, x), acked), dropped).payloads;
  }

  lemma BalancedStep(c0: Client, calls: seq<Call>)
    requires calls != [] && Balanced(c0, calls[..|calls| - 1])
    ensures Balanced(c0, calls)
  {
    hide Plus, TallyOf, AcceptedBy, AckedBy, DroppedBy, Send, ProcessAck, Stored;
    var init, call := calls[..|calls| - 1], calls[|calls| - 1];
    var c := Run(c0, init);
    match call {
      case SendCall(payload, env) =>
        SendConserves(c, payload, env);
        SendLedger(c, call);
        TallyZero(Acknowledged(c0, init));
        TallyZero(Dropped(c0, init));
        BalanceAccept(TallyOf(c.recovery.inFlight), Acknowledged(c0, init), Dropped(c0, init), AcceptedBy(c, call));
        PlusFields(Accepted(c0, init), AcceptedBy(c, call));
      case AckCall(data, env) =>
        AckConserves(c, data, env);
        AckLedger(c, call);
        TallyZero(Accepted(c0, init));
        PlusFields(Acknowledged(c0, init), AckedBy(c, call));
        Balance4(TallyOf(c.recovery.inFlight), Acknowledged(c0, init), Dropped(c0, init),
                 TallyOf(Apply(c, call).client.recovery.inFlight), AckedBy(c, call), DroppedBy(c, call));
    }
  }

  lemma PlusFields(a: Tally, b: Tally)
    ensures Plus(a, b).bytes == a.bytes + b.bytes && Plus(a, b).packets == a.packets + b.packets
  {
  }

  lemma SendLedger(c: Client, call: Call)
    requires call.SendCall?
    ensures AckedBy(c, call) == ZERO && DroppedBy(c, call) == ZERO
  {
  }

  lemma AckLedger(c: Client, call: Call)
    requires call.AckCall?
    ensures AcceptedBy(c, call) == ZERO
  {
  }

  /** Conservation over every run, whatever datagrams arrive and whichever sends fail: the
      multiset of payloads accepted equals acknowledged plus in flight plus dropped, through
      any chain of retransmissions; likewise in bytes and in packets, and the four counters
      are exactly those sums. Every stored packet decodes to its own number. */
  lemma {:induction false} Conservation(now: real, calls: seq<Call>)
    ensures Balanced(Init(now), calls)
  {
    hide Balanced;
    if calls == [] {
      FreshBalanced(now);
    } else {
      Conservation(now, calls[..|calls| - 1]);
      BalancedStep(Init(now), calls);
    }
  }

  lemma FreshBalanced(now: real)
    ensures Balanced(Init(now), [])
  {
    hide SendingRate, Pacing.Init, Congestion.Init, Plus;
    EmptyTally();
    TallyZero(ZERO);
  }

  lemma BalancedStores(now: real, calls: seq<Call>)
    ensures AllStored(Run(Init(now), calls).recovery.inFlight)
  {
    hide Run, Init;
    Conservation(now, calls);
  }

  // ---------------------------------------------------------------- when packets are given up

  /** Retransmitting fails exactly when the socket refuses one of the lost packets. */
  lemma {:induction false} ResendFailsIff(c: Client, lost: seq<Recovery.InFlight>, env: AckEnv)
    requires AllStored(lost)
    ensures Resend(c, lost, env).failed <==> exists k :: 0 <= k < |lost| && !env.ok(k)
    ensures Resend(c, lost, env).failed ==> Unsent(c, lost, env) != []
    ensures AllStored(Unsent(c, lost, env))
  {
    hide ResendOne, Stored, Decode;
    if lost != [] {
      var n := |lost| - 1;
      var init := lost[..n];
      ResendFailsIff(c, init, env);
      var o := Resend(c, init, env);
      StoredDecodes(lost[n]);
      if !o.failed {
        ResendOneEffect(o, lost[n], n, env);
      }
    }
  }

  lemma AckCallFailsIff(c: Client, data: bytes, env: AckEnv)
    requires AllStored(c.recovery.inFlight)
    ensures ProcessAck(c, data, env).failed <==> RetransmissionFails(c, AckCall(data, env))
  {
    hide Decode, CountAcks, Resend, Recovery.Select, Stored, RttSample;
    if Decode(data).Some? {
      var h := Decode(data).value.header;
      var a := Recovery.OnAck(c.recovery, h.latestAck, env.ackNow);
      SelectStored(c.recovery.inFlight, Recovery.Lost, h.latestAck, Max(c.recovery.largestAcked, h.latestAck),
          env.ackNow);
      var rtt := RttSample(h.ackTimestampEcho, env.rttNow);
      ResendFailsIff(CountAcks(TakeAck(c, h, a.state), a.acked, rtt, env.now), a.lost, env);
    }
  }

  /** Every packet weighs at least a header and carries one payload. */
  ghost predicate Weighed(t: Tally) {
    t.bytes >= HEADER_SIZE * t.packets && |t.payloads| == t.packets
  }

  lemma {:induction false} TallyWeighed(q: seq<Recovery.InFlight>)
    requires AllStored(q)
    ensures Weighed(TallyOf(q))
  {
    if q != [] {
      TallyWeighed(q[..|q| - 1]);
    }
  }

  lemma PlusWeighed(a: Tally, b: Tally)
    requires Weighed(a) && Weighed(b)
    ensures Weighed(Plus(a, b))
  {
  }

  lemma NoPackets(t: Tally)
    requires Weighed(t)
    ensures t == ZERO <==> t.packets == 0 && t.bytes == 0
    ensures t.packets > 0 ==> t.bytes > 0 && t.payloads != multiset{}
  {
  }

  /** One call gives up packets if and only if one of its retransmissions is refused. */
  lemma CallDropsIff(c: Client, call: Call)
    requires AllStored(c.recovery.inFlight)
    ensures Weighed(DroppedBy(c, call))
    ensures if RetransmissionFails(c, call) then DroppedBy(c, call).packets > 0 else DroppedBy(c, call) == ZERO
  {
    hide Decode, CountAcks, Resend, Recovery.Select, Stored, RttSample, TallyOf, Weighed, ProcessHeader;
    EmptyTally();
    TallyWeighed([]);
    match call
    case SendCall(_, _) =>
    case AckCall(data, env) =>
      AckConserves(c, data, env);
      AckCallFailsIff(c, data, env);
      if Decode(data).Some? {
        var h := Decode(data).value.header;
        var a := Recovery.OnAck(c.recovery, h.latestAck, env.ackNow);
        var c1 := CountAcks(TakeAck(c, h, a.state), a.acked, RttSample(h.ackTimestampEcho, env.rttNow), env.now);
        SelectStored(c.recovery.inFlight, Recovery.Lost, h.latestAck, Max(c.recovery.largestAcked, h.latestAck),
            env.ackNow);
        ResendFailsIff(c1, a.lost, env);
        TallyWeighed(Unsent(c1, a.lost, env));
        TallyCount(Unsent(c1, a.lost, env));
      }
  }

  /** Over every run, packets are given up if and only if a retransmission was refused by
      the socket; a refused first transmission gives up nothing. */
  lemma {:induction false} NothingDropped(now: real, calls: seq<Call>)
    ensures Weighed(Dropped(Init(now), calls))
    ensures if NoRetransmissionFails(Init(now), calls) then Dropped(Init(now), calls) == ZERO
            else Dropped(Init(now), calls).packets > 0
  {
    hide Run, Init, RetransmissionFails, DroppedBy, Weighed, Plus;
    if calls == [] {
      EmptyTally();
      TallyWeighed([]);
    } else {
      var n := |calls| - 1;
      var c := Run(Init(now), calls[..n]);
      NothingDropped(now, calls[..n]);
      BalancedStores(now, calls[..n]);
      CallDropsIff(c, calls[n]);
      NoFailureStep(Init(now), calls);
      PlusWeighed(Dropped(Init(now), calls[..n]), DroppedBy(c, calls[n]));
      PlusFields(Dropped(Init(now), calls[..n]), DroppedBy(c, calls[n]));
      TallyZero(ZERO);
    }
  }

  lemma NoFailureStep(c: Client, calls: seq<Call>)
    requires calls != []
    ensures var n := |calls| - 1;
      NoRetransmissionFails(c, calls)
      <==> NoRetransmissionFails(c, calls[..n]) && !RetransmissionFails(Run(c, calls[..n]), calls[n])
  {
    hide Run, RetransmissionFails;
    var n := |calls| - 1;
    assert forall i :: 0 <= i < n ==> calls[..n][..i] == calls[..i];
  }

  /** The difference of the byte counters is the bytes in flight plus the bytes given up,
      and that of the packet counters the packets in flight plus those given up, so the
      subtraction in the upload loop never underflows. Bytes, packets and payloads are
      exactly those in flight if and only if no retransmission was refused. */
  lemma InFlightAccounting(now: real, calls: seq<Call>)
    ensures var c := Run(Init(now), calls); var t := TallyOf(c.recovery.inFlight); var d := Dropped(Init(now), calls);
      && c.bytesSent - c.bytesAcked == t.bytes + d.bytes
      && c.packetsSent - c.packetsAcked == |c.recovery.inFlight| + d.packets
    ensures var c := Run(Init(now), calls); var t := TallyOf(c.recovery.inFlight);
      var ok := NoRetransmissionFails(Init(now), calls);
      && (c.bytesSent - c.bytesAcked == t.bytes <==> ok)
      && (c.packetsSent - c.packetsAcked == |c.recovery.inFlight| <==> ok)
      && (Accepted(Init(now), calls).payloads == t.payloads + Acknowledged(Init(now), calls).payloads <==> ok)
  {
    hide Run, TallyOf, Accepted, Acknowledged, Dropped, NoRetransmissionFails;
    Conservation(now, calls);
    TallyCount(Run(Init(now), calls).recovery.inFlight);
    NothingDropped(now, calls);
    NoPackets(Dropped(Init(now), calls));
    MultisetGap(TallyOf(Run(Init(now), calls).recovery.inFlight).payloads + Acknowledged(Init(now), calls).payloads,
                Dropped(Init(now), calls).payloads);
  }

  lemma MultisetGap<T>(a: multiset<T>, b: multiset<T>)
    ensures a + b == a <==> b == multiset{}
  {
    assert |a + b| == |a| + |b|;
  }

  lemma {:induction false} TallyCount(q: seq<Recovery.InFlight>)
    ensures TallyOf(q).packets == |q|
  {
    if q != [] {
      TallyCount(q[..|q| - 1]);
    }
  }

  // ---------------------------------------------------------------- a packet given up

  /** A first packet sent at microsecond 1, then any datagram that acknowledges nothing two
      seconds later while the socket refuses to send. */
  function DroppingRun(payload: bytes): seq<Call> {
    [SendCall(payload, SendEnv(1, 0.0, true, 0.0, 1)),
     AckCall(Encode(Packet(Header(1, 0, 0, 0), [])),
             AckEnv(2.0, 2_000_002, 2_000_002, _ => 2_000_002, _ => 2_000_002, _ => false))]
  }

  lemma FreshSender(now: real)
    ensures var c := Init(now);
      c.recovery == Recovery.EMPTY_QUEUE && c.conn == UNCONNECTED && c.packetsSent == c.packetsAcked == 0
  {
    hide Congestion.Init, Pacing.Init, SendingRate;
  }

  /** An ACK of nothing, when the only packet in flight is timed out and the socket refuses. */
  lemma OnlyPacketRefused(c: Client, p: Recovery.InFlight, h: Header, env: AckEnv)
    requires c.recovery == Recovery.State([p], 0) && Stored(p)
    requires h.latestAck == 0 < p.packetNumber && Recovery.TimedOut(p, env.ackNow) && !env.ok(0)
    ensures var o, a := ProcessHeader(c, h, env), Recovery.OnAck(c.recovery, h.latestAck, env.ackNow);
      && o.client.recovery.inFlight == []
      && o.client.packetsSent == c.packetsSent && o.client.packetsAcked == c.packetsAcked
      && var rtt := RttSample(h.ackTimestampEcho, env.rttNow);
        Unsent(CountAcks(TakeAck(c, h, a.state), a.acked, rtt, env.now), a.lost, env) == [p]
  {
    hide Decode, ResendOne, RttSample, Recovery.TimedOut, Stored;
    StoredDecodes(p);
    Recovery.SelectNone([p], Recovery.Acked, 0, 0, env.ackNow);
    Recovery.SelectAll([p], Recovery.Lost, 0, 0, env.ackNow);
    Recovery.SelectNone([p], Recovery.Kept, 0, 0, env.ackNow);
    var a := Recovery.OnAck(c.recovery, 0, env.ackNow);
    assert a == Recovery.AckOutcome([], [p], Recovery.EMPTY_QUEUE);
    var c1 := TakeAck(c, h, a.state);
    assert CountAcks(c1, [], RttSample(h.ackTimestampEcho, env.rttNow), env.now) == c1;
    OneRefused(c1, p, env);
  }

  lemma OneRefused(c: Client, p: Recovery.InFlight, env: AckEnv)
    requires Stored(p) && !env.ok(0)
    ensures var o := Resend(c, [p], env);
      && o.failed && o.client.recovery == c.recovery
      && o.client.packetsSent == c.packetsSent && o.client.packetsAcked == c.packetsAcked
    ensures Unsent(c, [p], env) == [p]
  {
    hide Decode, ResendOne, Stored;
    StoredDecodes(p);
    assert [p][..0] == [];
    ResendOneEffect(Outcome(c, [], false), p, 0, env);
  }

  lemma TallyOfOne(p: Recovery.InFlight)
    ensures TallyOf([p]) == One(p)
  {
    assert [p][..0] == [];
    TallyZero(One(p));
  }

  lemma TwoCalls(c: Client, first: Call, second: Call)
    ensures var c1 := Apply(c, first).client;
      && Run(c, [first, second]) == Apply(c1, second).client
      && Dropped(c, [first, second]) == Plus(Plus(ZERO, DroppedBy(c, first)), DroppedBy(c1, second))
  {
    hide Apply, DroppedBy, Plus;
    var calls := [first, second];
    assert calls[..1] == [first] && [first][..0] == [];
    assert Run(c, []) == c && Dropped(c, []) == ZERO;
    assert Run(c, [first]) == Apply(c, first).client;
    assert Dropped(c, [first]) == Plus(ZERO, DroppedBy(c, first));
  }

  lemma FirstSend(now: real, payload: bytes, env: SendEnv) returns (p: Recovery.InFlight)
    requires env.ok
    ensures var c := Send(Init(now), payload, env).client;
      && c.recovery == Recovery.State([p], 0) && p.packetNumber == 1 && p.sentTime == env.sentTime && Stored(p)
      && One(p) == Tally(multiset{payload}, |payload| + HEADER_SIZE, 1)
      && c.packetsSent == 1 && c.packetsAcked == 0
  {
    hide Init, Send, Outgoing, Stored, One, Congestion.OnSent, Pacing.Schedule, SendingRate;
    FreshSender(now);
    SendEffect(Init(now), payload, env);
    var conn := NextNumber(UNCONNECTED);
    FreshTally(conn, env.stamp, payload, env.sentTime);
    var d := Outgoing(conn, env.stamp, payload);
    p := Recovery.InFlight(1, env.sentTime, |d|, d, false);
  }

  lemma SendDropsNothing(c: Client, payload: bytes, env: SendEnv)
    ensures Apply(c, SendCall(payload, env)) == Send(c, payload, env)
    ensures DroppedBy(c, SendCall(payload, env)) == ZERO
  {
    hide Send;
  }

  lemma OnlyPacketDropped(c: Client, p: Recovery.InFlight, h: Header, env: AckEnv)
    requires c.recovery == Recovery.State([p], 0) && Stored(p)
    requires h.latestAck == 0 < p.packetNumber && Recovery.TimedOut(p, env.ackNow) && !env.ok(0)
    ensures var call := AckCall(Encode(Packet(h, [])), env); var u := Apply(c, call).client;
      && u.recovery.inFlight == [] && u.packetsSent == c.packetsSent && u.packetsAcked == c.packetsAcked
      && DroppedBy(c, call) == One(p)
  {
    hide ProcessHeader, Encode, Decode, TallyOf, Unsent, CountAcks, Recovery.OnAck, RttSample, Stored, One, TakeAck,
        Recovery.TimedOut;
    DecodeEncode(Packet(h, []));
    OnlyPacketRefused(c, p, h, env);
    TallyOfOne(p);
  }

  /** Such a run gives its packet up: nothing is in flight and nothing was acknowledged, but
      the counters differ by that packet for good. */
  lemma RefusedRetransmissionDrops(now: real, payload: bytes)
    ensures var calls := DroppingRun(payload); var c := Run(Init(now), calls);
      && c.recovery.inFlight == [] && c.packetsSent == 1 && c.packetsAcked == 0
      && Dropped(Init(now), calls) == Tally(multiset{payload}, |payload| + HEADER_SIZE, 1)
  {
    hide Init, Send, Encode, Run, Apply, DroppedBy, Stored, One, Dropped;
    var calls := DroppingRun(payload);
    var send, ack := calls[0].sendEnv, calls[1].ackEnv;
    TwoCalls(Init(now), calls[0], calls[1]);
    SendDropsNothing(Init(now), payload, send);
    var p := FirstSend(now, payload, send);
    OnlyPacketDropped(Send(Init(now), payload, send).client, p, Header(1, 0, 0, 0), ack);
    TallyZero(One(p));
    TallyZero(ZERO);
    assert calls == [calls[0], calls[1]];
  }
}
