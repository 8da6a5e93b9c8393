/** What the sender's own packets acknowledge, over whole runs. */
module ClientAcks {
  import opened Numbers
  import opened Wire
  import opened Connection
  import opened Client
  import opened ClientRuns
  import Recovery

  function HeaderOf(d: bytes): Header {
    if Decode(d).Some? then Decode(d).value.header else Header(0, 0, 0, 0)
  }

  function OnWire(wire: seq<bytes>): set<bytes> {
    set d | d in wire
  }

  lemma SendAcks(c: Client, payload: bytes, env: SendEnv)
    ensures var o := Send(c, payload, env);
      && o.client.conn == NextNumber(c.conn)
      && forall d :: d in OnWire(o.wire) ==>
           HeaderOf(d).latestAck == c.conn.lastReceivedPacket
               && HeaderOf(d).ackTimestampEcho == c.conn.lastReceivedTimestamp
  {
    hide Send, Outgoing, Decode;
    SendEffect(c, payload, env);
    OutgoingStored(NextNumber(c.conn), env.stamp, payload, env.sentTime, false);
  }

  /** The connection except for its own packet counter. */
  ghost predicate SamePeer(c: Conn, d: Conn) {
    c.(localPacketNumber := d.localPacketNumber) == d
  }

  lemma {:induction false} ResendAcks(c: Client, lost: seq<Recovery.InFlight>, env: AckEnv)
    ensures var o := Resend(c, lost, env);
      && SamePeer(c.conn, o.client.conn)
      && forall d :: d in OnWire(o.wire) ==>
           HeaderOf(d).latestAck == c.conn.lastReceivedPacket
               && HeaderOf(d).ackTimestampEcho == c.conn.lastReceivedTimestamp
  {
    hide ResendOne, Outgoing, Decode;
    if lost != [] {
      var n := |lost| - 1;
      ResendAcks(c, lost[..n], env);
      var o := Resend(c, lost[..n], env);
      if !o.failed {
        ResendOneEffect(o, lost[n], n, env);
        if Decode(lost[n].data).Some? {
          OutgoingStored(NextNumber(o.client.conn), env.stamp(n), Decode(lost[n].data).value.payload, env.time(n),
              true);
        }
      }
    }
  }

  lemma ProcessAcks(c: Client, h: Header, env: AckEnv)
    ensures var o := ProcessHeader(c, h, env);
      && o.client.conn.lastReceivedPacket == h.packetNumber && o.client.conn.lastReceivedTimestamp == h.timestamp
      && forall d :: d in OnWire(o.wire) ==>
           HeaderOf(d).latestAck == h.packetNumber && HeaderOf(d).ackTimestampEcho == h.timestamp
  {
    hide CountAcks, Resend, OnWire, RttSample, Recovery.OnAck, HeaderOf;
    var a := Recovery.OnAck(c.recovery, h.latestAck, env.ackNow);
    var rtt := RttSample(h.ackTimestampEcho, env.rttNow);
    var c0 := TakeAck(c, h, a.state);
    CountAcksEffect(c0, a.acked, rtt, env.now);
    ResendAcks(CountAcks(c0, a.acked, rtt, env.now), a.lost, env);
  }

  // ---------------------------------------------------------------- whole runs

  /** Headers of the decodable datagrams handed to the sender, in order. */
  function Arrivals(calls: seq<Call>): seq<Header> {
    if calls == [] then []
    else
      var before := Arrivals(calls[..|calls| - 1]);
      match calls[|calls| - 1]
      case AckCall(data, _) => if Decode(data).Some? then before + [Decode(data).value.header] else before
      case SendCall(_, _) => before
  }

  lemma CallConnection(c: Client, call: Call)
    ensures var u := Apply(c, call).client;
      if call.AckCall? && Decode(call.data).Some?
          then SamePeer(Received(c.conn, Decode(call.data).value.header), u.conn)
      else SamePeer(c.conn, u.conn)
  {
    hide Send, Decode, CountAcks, Resend, Recovery.OnAck, RttSample;
    match call
    case SendCall(payload, env) => SendEffect(c, payload, env);
    case AckCall(data, env) =>
      if Decode(data).Some? {
        var h := Decode(data).value.header;
        var a := Recovery.OnAck(c.recovery, h.latestAck, env.ackNow);
        var rtt := RttSample(h.ackTimestampEcho, env.rttNow);
        var c0 := TakeAck(c, h, a.state);
        CountAcksEffect(c0, a.acked, rtt, env.now);
        ResendAcks(CountAcks(c0, a.acked, rtt, env.now), a.lost, env);
      }
  }

  /** Apart from its own counter, the sender's connection is what the arrivals made it. */
  lemma {:induction false} ConnectionOfRun(c: Client, calls: seq<Call>)
    ensures SamePeer(ReceivedAll(c.conn, Arrivals(calls)), Run(c, calls).conn)
  {
    hide Apply, Decode;
    if calls != [] {
      var n := |calls| - 1;
      ConnectionOfRun(c, calls[..n]);
      CallConnection(Run(c, calls[..n]), calls[n]);
      var before, after := Arrivals(calls[..n]), Arrivals(calls);
      assert |after| > |before| ==> after[..|after| - 1] == before;
    }
  }

  /** Whatever a call sends, first transmission or retransmission, carries the number and the
      timestamp on record when the call is over. */
  lemma CallAcknowledges(c: Client, call: Call, d: bytes)
    requires d in Apply(c, call).wire
    ensures var conn := Apply(c, call).client.conn;
      HeaderOf(d).latestAck == conn.lastReceivedPacket && HeaderOf(d).ackTimestampEcho == conn.lastReceivedTimestamp
  {
    hide Send, ProcessHeader, Decode, HeaderOf;
    match call
    case SendCall(payload, env) => SendAcks(c, payload, env);
    case AckCall(data, env) =>
      if Decode(data).Some? {
        ProcessAcks(c, Decode(data).value.header, env);
      }
  }

  /** Every packet of a run, first transmission or retransmission, acknowledges the highest
      number received by then. */
  ghost predicate AcksAreHighest(c: Client, calls: seq<Call>) {
    forall i, d :: 0 <= i < |calls| && d in Apply(Run(c, calls[..i]), calls[i]).wire ==>
      HeaderOf(d).latestAck == HighestReceived(c.conn, Arrivals(calls[..i + 1]))
  }

  /** At every moment of a run, a packet sent next would acknowledge the highest number
      received so far, as documented. */
  ghost predicate NextAckIsHighest(c: Client, calls: seq<Call>) {
    forall i, payload, env: SendEnv, d :: 0 <= i <= |calls| && d in Send(Run(c, calls[..i]), payload, env).wire ==>
      HeaderOf(d).latestAck == HighestReceived(c.conn, Arrivals(calls[..i]))
  }

  ghost predicate RecordIsHighest(c: Client, calls: seq<Call>) {
    forall i :: 0 <= i <= |calls| ==> IsHighest(c.conn, Arrivals(calls[..i]))
  }

  lemma RecordStep(c: Client, calls: seq<Call>)
    requires calls != []
    ensures var init := calls[..|calls| - 1];
      && (RecordIsHighest(c, calls) <==> RecordIsHighest(c, init) && IsHighest(c.conn, Arrivals(calls)))
      && (RecordIsHighest(c, init) ==> IsHighest(c.conn, Arrivals(init)))
  {
    hide IsHighest, Arrivals;
    var n := |calls| - 1;
    assert calls[..|calls|] == calls && calls[..n][..n] == calls[..n];
    assert forall i :: 0 <= i <= n ==> calls[..n][..i] == calls[..i];
  }

  lemma {:induction false} RecordIsHighestIff(c: Client, calls: seq<Call>)
    ensures RecordIsHighest(c, calls) <==> ArriveInOrder(c.conn, Arrivals(calls))
  {
    hide RecordIsHighest, IsHighest, ArriveInOrder, AlwaysHighest, Decode;
    if calls == [] {
      EmptyRecord(c);
    } else {
      var init := calls[..|calls| - 1];
      var before, after := Arrivals(init), Arrivals(calls);
      RecordIsHighestIff(c, init);
      RecordStep(c, calls);
      if after != before {
        assert after[..|after| - 1] == before;
        AlwaysHighestStep(c.conn, after);
        LatestAckIsHighestIffInOrder(c.conn, after);
        LatestAckIsHighestIffInOrder(c.conn, before);
      }
    }
  }

  lemma EmptyRecord(c: Client)
    ensures RecordIsHighest(c, []) && ArriveInOrder(c.conn, Arrivals([]))
  {
    var none: seq<Call> := [];
    assert none[..0] == none;
  }

  lemma RecordOfRun(c: Client, calls: seq<Call>)
    ensures IsHighest(c.conn, Arrivals(calls))
       <==> Run(c, calls).conn.lastReceivedPacket == HighestReceived(c.conn, Arrivals(calls))
  {
    hide Arrivals, ReceivedAll, HighestReceived, Run;
    ConnectionOfRun(c, calls);
  }

  lemma NextAck(c: Client, payload: bytes, env: SendEnv)
    ensures env.ok ==> |Send(c, payload, env).wire| == 1
    ensures forall d :: d in Send(c, payload, env).wire ==> HeaderOf(d).latestAck == c.conn.lastReceivedPacket
  {
    hide Send, HeaderOf, Outgoing;
    SendEffect(c, payload, env);
    SendAcks(c, payload, env);
    assert forall d :: d in Send(c, payload, env).wire ==> d in OnWire(Send(c, payload, env).wire);
  }

  /** "Highest packet number received" is what the sender's next packet acknowledges, at every
      moment of a run, if and only if the datagrams of the run arrive in the order of their
      numbers. */
  lemma NextAckIsHighestIff(c: Client, calls: seq<Call>)
    ensures NextAckIsHighest(c, calls) <==> ArriveInOrder(c.conn, Arrivals(calls))
  {
    hide Run, Send, HeaderOf, Arrivals, ArriveInOrder, IsHighest, HighestReceived;
    RecordIsHighestIff(c, calls);
    if NextAckIsHighest(c, calls) {
      forall i | 0 <= i <= |calls|
        ensures IsHighest(c.conn, Arrivals(calls[..i]))
      {
        var env := SendEnv(0, 0.0, true, 0.0, 0);
        NextAck(Run(c, calls[..i]), [], env);
        var d := Send(Run(c, calls[..i]), [], env).wire[0];
        assert d in Send(Run(c, calls[..i]), [], env).wire;
        RecordOfRun(c, calls[..i]);
      }
    }
    if RecordIsHighest(c, calls) {
      forall i, payload, env: SendEnv, d | 0 <= i <= |calls| && d in Send(Run(c, calls[..i]), payload, env).wire
        ensures HeaderOf(d).latestAck == HighestReceived(c.conn, Arrivals(calls[..i]))
      {
        NextAck(Run(c, calls[..i]), payload, env);
        RecordOfRun(c, calls[..i]);
      }
    }
  }

  /** In that case the retransmissions acknowledge the highest number too. */
  lemma InOrderAcksAreHighest(c: Client, calls: seq<Call>)
    requires ArriveInOrder(c.conn, Arrivals(calls))
    ensures AcksAreHighest(c, calls)
  {
    hide ArriveInOrder, Apply, HeaderOf, HighestReceived, Arrivals, IsHighest;
    RecordIsHighestIff(c, calls);
    forall i, d | 0 <= i < |calls| && d in Apply(Run(c, calls[..i]), calls[i]).wire
      ensures HeaderOf(d).latestAck == HighestReceived(c.conn, Arrivals(calls[..i + 1]))
    {
      assert calls[..i + 1][..i] == calls[..i] && calls[..i + 1][i] == calls[i];
      CallAcknowledges(Run(c, calls[..i]), calls[i], d);
      RecordOfRun(c, calls[..i + 1]);
    }
  }
}
