/** The sender (client.rs): connection, congestion control, loss recovery and pacer
    working on shared packets. Clock readings and the outcomes of socket sends are
    parameters. */
module Client {
  import opened Numbers
  import opened Wire
  import opened Connection
  import Recovery
  import Pacing
  import Congestion

  datatype Client = Client(
    conn: Conn,
    bbr: Congestion.Bbr,
    recovery: Recovery.State,
    pacer: Pacing.State,
    bytesSent: nat,
    bytesAcked: nat,
    packetsSent: nat,
    packetsAcked: nat,
    rttSamples: seq<nonneg>)

  /** The controller's rate, at least 1000 bytes per second. */
  function SendingRate(b: Congestion.Bbr): Float {
    FMax(b.pacingRate, Fin(1000.0))
  }

  function Init(now: real): Client {
    var b := Congestion.Init(now);
    Client(UNCONNECTED, b, Recovery.EMPTY_QUEUE, Pacing.Init(SendingRate(b)), 0, 0, 0, 0, [])
  }

  /** Bring the pacer to the controller's current rate. */
  function Repace(c: Client): Client {
    c.(pacer := c.pacer.(rate := Pacing.Floored(SendingRate(c.bbr))))
  }

  // ---------------------------------------------------------------- sending

  /** Clock readings of one send, in program order, and whether the socket accepted it. */
  datatype SendEnv = SendEnv(stamp: u64, paceNow: real, ok: bool, sentNow: real, sentTime: u64)

  function NumberAndPace(c: Client, size: nat, now: real): Client {
    c.(conn := NextNumber(c.conn), pacer := Pacing.Schedule(c.pacer, size, now).state)
  }

  /** The packet built from the connection state after numbering. */
  function Outgoing(conn: Conn, stamp: u64, payload: bytes): bytes {
    Encode(Packet(Header(conn.localPacketNumber, stamp, conn.lastReceivedPacket, conn.lastReceivedTimestamp), payload))
  }

  function Track(c: Client, d: bytes, sentTime: u64, retransmitted: bool): Client {
    c.(recovery := Recovery.OnSent(c.recovery,
         Recovery.InFlight(c.conn.localPacketNumber, sentTime, |d|, d, retransmitted)))
  }

  function CountSend(c: Client, size: nat, now: real): Client {
    c.(bytesSent := c.bytesSent + size, packetsSent := c.packetsSent + 1, bbr := Congestion.OnSent(c.bbr, now))
  }

  datatype Outcome = Outcome(client: Client, wire: seq<bytes>, failed: bool)

  function Send(c: Client, payload: bytes, env: SendEnv): Outcome {
    var c1 := NumberAndPace(c, |payload| + HEADER_SIZE, env.paceNow);
    var d := Outgoing(c1.conn, env.stamp, payload);
    if env.ok then Outcome(Track(Repace(CountSend(c1, |d|, env.sentNow)), d, env.sentTime, false), [d], false)
    else Outcome(c1, [], true)
  }

  // ---------------------------------------------------------------- receiving

  /** Clock readings while an ACK is processed, and the outcome of each retransmission. */
  datatype AckEnv = AckEnv(now: real, rttNow: u64, ackNow: u64, stamp: nat -> u64, time: nat -> u64, ok: nat -> bool)

  /** `calculate_rtt`, in seconds. */
  function CalculateRtt(echo: u64, now: u64): nonneg {
    if now > echo then (now - echo) as real / 1000000.0 else 0.0
  }

  function RttSample(echo: u64, now: u64): nonneg {
    if echo > 0 then CalculateRtt(echo, now) else 0.001
  }

  function CountAck(c: Client, p: Recovery.InFlight, rtt: nonneg, now: real): Client {
    c.(bytesAcked := c.bytesAcked + p.size,
       packetsAcked := c.packetsAcked + 1,
       rttSamples := c.rttSamples + [rtt],
       bbr := Congestion.OnAck(c.bbr, p.size, rtt, now))
  }

  function CountAcks(c: Client, acked: seq<Recovery.InFlight>, rtt: nonneg, now: real): Client {
    if acked == [] then c
    else CountAck(CountAcks(c, acked[..|acked| - 1], rtt, now), acked[|acked| - 1], rtt, now)
  }

  function NoteLoss(c: Client, now: real): Client {
    c.(bbr := Congestion.OnLost(c.bbr, now), conn := NextNumber(c.conn))
  }

  /** Handle the `k`-th lost packet: tell the controller, renumber, re-encode, send. */
  function ResendOne(o: Outcome, p: Recovery.InFlight, k: nat, env: AckEnv): Outcome {
    var c := NoteLoss(o.client, env.now);
    match Decode(p.data)
    case None => Outcome(c, o.wire, false)
    case Some(original) =>
      var d := Outgoing(c.conn, env.stamp(k), original.payload);
      if env.ok(k) then Outcome(Track(c, d, env.time(k), true), o.wire + [d], false)
      else Outcome(c, o.wire, true)
  }

  /** All lost packets in order, stopping at the first send that fails. */
  function Resend(c: Client, lost: seq<Recovery.InFlight>, env: AckEnv): Outcome {
    if lost == [] then Outcome(c, [], false)
    else
      var o := Resend(c, lost[..|lost| - 1], env);
      if o.failed then o else ResendOne(o, lost[|lost| - 1], |lost| - 1, env)
  }

  function TakeAck(c: Client, h: Header, recovery: Recovery.State): Client {
    c.(conn := Received(c.conn, h), recovery := recovery)
  }

  function ProcessAck(c: Client, data: bytes, env: AckEnv): Outcome {
    match Decode(data)
    case None => Outcome(c, [], false)
    case Some(packet) => ProcessHeader(c, packet.header, env)
  }

  function ProcessHeader(c: Client, h: Header, env: AckEnv): Outcome {
    var a := Recovery.OnAck(c.recovery, h.latestAck, env.ackNow);
    var c1 := CountAcks(TakeAck(c, h, a.state), a.acked, RttSample(h.ackTimestampEcho, env.rttNow), env.now);
    var o := Resend(c1, a.lost, env);
    if o.failed then o else Outcome(Repace(o.client), o.wire, false)
  }

  // ---------------------------------------------------------------- the object

  class StpClient {
    const connection: ConnectionState
    const congestionControl: Congestion.BbrCongestionControl
    const lossRecovery: Recovery.LossRecovery
    const pacer: Pacing.Pacer
    var bytesSent: nat
    var bytesAcked: nat
    var packetsSent: nat
    var packetsAcked: nat
    var rttSamples: seq<nonneg>

    ghost function Repr(): set<object> {
      {this, connection, congestionControl, congestionControl.maxBw, lossRecovery, pacer}
    }

    ghost function Model(): Client
      reads Repr()
    {
      Client(connection.Model(), congestionControl.Model(), lossRecovery.Model(), pacer.Model(),
             bytesSent, bytesAcked, packetsSent, packetsAcked, rttSamples)
    }

    constructor (now: real)
      ensures Model() == Init(now) && fresh(Repr())
    {
      connection := new ConnectionState();
      var cc := new Congestion.BbrCongestionControl(now);
      congestionControl := cc;
      lossRecovery := new Recovery.LossRecovery();
      pacer := new Pacing.Pacer(FMax(cc.pacingRate, Fin(1000.0)));
      bytesSent, bytesAcked, packetsSent, packetsAcked, rttSamples := 0, 0, 0, 0, [];
    }

    function GetSendingRate(): (r: Float)
      reads congestionControl
    {
      FMax(congestionControl.pacingRate, Fin(1000.0))
    }

    /** Returns whether the call succeeded and what reached the network. */
    method SendData(payload: bytes, env: SendEnv) returns (ok: bool, wire: seq<bytes>)
      modifies Repr()
      ensures Outcome(Model(), wire, !ok) == Send(old(Model()), payload, env)
    {
      hide Congestion.OnSent, Pacing.Schedule, Encode;
      ghost var c0 := Model();
      var packetNumber := connection.NextPacketNumber();
      var packet := Packet(Header(packetNumber, env.stamp, connection.lastReceivedPacket,
                                  connection.lastReceivedTimestamp), payload);
      var wait := pacer.ScheduleNextSend(|packet.payload| + 32, env.paceNow);
      assert Model() == NumberAndPace(c0, |payload| + HEADER_SIZE, env.paceNow);
      ghost var c1 := Model();
      var encoded := EncodeThroughBuffer(packet);
      assert encoded == Outgoing(c1.conn, env.stamp, payload);
      if !env.ok {
        return false, [];
      }
      bytesSent := bytesSent + |encoded|;
      packetsSent := packetsSent + 1;
      congestionControl.OnPacketSent(env.sentNow);
      assert Model() == CountSend(c1, |encoded|, env.sentNow);
      ghost var c2 := Model();
      pacer.UpdateRate(GetSendingRate());
      assert Model() == Repace(c2);
      ghost var c3 := Model();
      var inFlight := Recovery.InFlight(packetNumber, env.sentTime, |encoded|, encoded, false);
      lossRecovery.OnPacketSent(inFlight);
      assert Model() == Track(c3, encoded, env.sentTime, false);
      return true, [encoded];
    }

    /** Returns whether the call succeeded and the retransmissions that reached the network. */
    method ProcessAckPacket(data: bytes, env: AckEnv) returns (ok: bool, wire: seq<bytes>)
      modifies Repr()
      ensures Outcome(Model(), wire, !ok) == ProcessAck(old(Model()), data, env)
    {
      hide Congestion.OnAck, Congestion.OnLost, Recovery.OnAck, CountAck, ResendOne, Decode, RttSample, Pacing.Floored;
      ghost var c0 := Model();
      var decoded := Decode(data);
      if decoded.None? {
        return true, [];
      }
      var packet := decoded.value;
      connection.UpdateFromReceived(packet.header);
      var rtt := RttSample(packet.header.ackTimestampEcho, env.rttNow);
      var acked, lost := lossRecovery.OnAckReceived(packet.header.latestAck, env.ackNow);
      ghost var c1 := Model();
      assert c1 == TakeAck(c0, packet.header, Recovery.OnAck(c0.recovery, packet.header.latestAck, env.ackNow).state);
      for i := 0 to |acked|
        invariant Model() == CountAcks(c1, acked[..i], rtt, env.now)
      {
        assert acked[..i + 1][..i] == acked[..i];
        CountAcked(acked[i], rtt, env.now);
      }
      assert acked[..|acked|] == acked;
      ghost var c2 := Model();
      wire := [];
      for k := 0 to |lost|
        invariant Outcome(Model(), wire, false) == Resend(c2, lost[..k], env)
      {
        assert lost[..k + 1][..k] == lost[..k];
        var done, sent := RetransmitLost(lost[k], k, env, wire);
        wire := sent;
        if !done {
          ResendStops(c2, lost, k + 1, env);
          assert lost[..|lost|] == lost;
          return false, wire;
        }
      }
      assert lost[..|lost|] == lost;
      ghost var c3 := Model();
      pacer.UpdateRate(GetSendingRate());
      assert Model() == Repace(c3);
      ok := true;
    }

    /** Body of the loop over acknowledged packets. */
    method CountAcked(acked: Recovery.InFlight, rtt: nonneg, now: real)
      modifies this, congestionControl, congestionControl.maxBw
      ensures Model() == CountAck(old(Model()), acked, rtt, now)
    {
      hide Congestion.OnAck;
      bytesAcked := bytesAcked + acked.size;
      packetsAcked := packetsAcked + 1;
      rttSamples := rttSamples + [rtt];
      congestionControl.OnAckReceived(acked.size, rtt, now);
    }

    /** Body of the loop over lost packets; false when the send fails. */
    method RetransmitLost(lost: Recovery.InFlight, k: nat, env: AckEnv, wire: seq<bytes>)
      returns (ok: bool, sent: seq<bytes>)
      modifies this, connection, congestionControl, lossRecovery
      ensures Outcome(Model(), sent, !ok) == ResendOne(Outcome(old(Model()), wire, false), lost, k, env)
    {
      hide Congestion.OnLost, Encode;
      ghost var c0 := Model();
      congestionControl.OnPacketLost(env.now);
      var newPacketNumber := connection.NextPacketNumber();
      ghost var c1 := Model();
      assert c1 == NoteLoss(c0, env.now);
      var decoded := Decode(lost.data);
      if decoded.None? {
        return true, wire;
      }
      var packet := decoded.value;
      packet := packet.(header := Header(newPacketNumber, env.stamp(k), connection.lastReceivedPacket,
                                         connection.lastReceivedTimestamp));
      var encoded := EncodeThroughBuffer(packet);
      assert encoded == Outgoing(c1.conn, env.stamp(k), packet.payload);
      if !env.ok(k) {
        return false, wire;
      }
      lossRecovery.OnPacketSent(Recovery.InFlight(newPacketNumber, env.time(k), |encoded|, encoded, true));
      assert Model() == Track(c1, encoded, env.time(k), true);
      return true, wire + [encoded];
    }
  }

  /** Once a retransmission fails, the packets after it change nothing. */
  lemma {:induction false} ResendStops(c: Client, lost: seq<Recovery.InFlight>, k: nat, env: AckEnv)
    requires k <= |lost| && Resend(c, lost[..k], env).failed
    ensures Resend(c, lost, env) == Resend(c, lost[..k], env)
    decreases |lost|
  {
    hide ResendOne;
    if k == |lost| {
      assert lost[..k] == lost;
    } else {
      var init := lost[..|lost| - 1];
      assert init[..k] == lost[..k];
      ResendStops(c, init, k, env);
    }
  }
}
