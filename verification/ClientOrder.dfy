/** Packet numbers and send times of the sender: the invariant that makes ACK handling
    simple. Its number part is kept at any clock readings as long as ACKs name numbers the
    sender has used; its time part is kept as long as the wall clock does not run
    backwards. */
module ClientOrder {
  import opened Numbers
  import opened Wire
  import opened Connection
  import opened Client
  import opened ClientRuns
  import Recovery

  // ---------------------------------------------------------------- numbers

  /** Numbers in flight increase, exceed everything acknowledged, and were all allocated. */
  ghost predicate Sequenced(c: Client) {
    && Recovery.Ordered(c.recovery)
    && c.recovery.largestAcked <= c.conn.localPacketNumber
    && forall i :: 0 <= i < |c.recovery.inFlight| ==> c.recovery.inFlight[i].packetNumber <= c.conn.localPacketNumber
  }

  /** Appending a packet under the next number keeps the invariant. */
  lemma TrackSequenced(c: Client, p: Recovery.InFlight, u: Client)
    requires Sequenced(c) && c.conn.localPacketNumber < U64_LIMIT - 1
    requires u.conn == NextNumber(c.conn) && u.recovery == Recovery.OnSent(c.recovery, p)
    requires p.packetNumber == u.conn.localPacketNumber
    ensures Sequenced(u)
  {
  }

  lemma SkipSequenced(c: Client, u: Client)
    requires Sequenced(c)
    requires u.recovery == c.recovery && u.conn.localPacketNumber >= c.conn.localPacketNumber
    ensures Sequenced(u)
  {
  }

  lemma SendSequenced(c: Client, payload: bytes, env: SendEnv)
    requires Sequenced(c) && c.conn.localPacketNumber < U64_LIMIT - 1
    ensures Sequenced(Send(c, payload, env).client)
  {
    hide Send, Encode, Sequenced, Recovery.OnSent;
    SendEffect(c, payload, env);
    var u := Send(c, payload, env).client;
    if env.ok {
      var d := Outgoing(NextNumber(c.conn), env.stamp, payload);
      var n := NextNumber(c.conn).localPacketNumber;
      TrackSequenced(c, Recovery.InFlight(n, env.sentTime, |payload| + HEADER_SIZE, d, false), u);
    } else {
      SkipSequenced(c, u);
    }
  }

  lemma {:induction false} ResendSequenced(c: Client, lost: seq<Recovery.InFlight>, env: AckEnv)
    requires Sequenced(c) && c.conn.localPacketNumber + |lost| < U64_LIMIT
    ensures var u := Resend(c, lost, env).client;
      && Sequenced(u)
      && c.conn.localPacketNumber <= u.conn.localPacketNumber <= c.conn.localPacketNumber + |lost|
      && u.conn == c.conn.(localPacketNumber := u.conn.localPacketNumber)
  {
    hide ResendOne, Sequenced, Recovery.OnSent, Decode, Encode;
    if lost != [] {
      var n := |lost| - 1;
      ResendSequenced(c, lost[..n], env);
      var o := Resend(c, lost[..n], env);
      if !o.failed {
        ResendOneSequenced(o, lost[n], n, env);
      }
    }
  }

  lemma ResendOneSequenced(o: Outcome, p: Recovery.InFlight, k: nat, env: AckEnv)
    requires Sequenced(o.client) && o.client.conn.localPacketNumber < U64_LIMIT - 1
    ensures var u := ResendOne(o, p, k, env).client; Sequenced(u) && u.conn == NextNumber(o.client.conn)
  {
    hide ResendOne, Sequenced, Recovery.OnSent, Decode, Encode;
    ResendOneEffect(o, p, k, env);
    var c, u := o.client, ResendOne(o, p, k, env).client;
    if Decode(p.data).Some? && env.ok(k) {
      var d := Outgoing(NextNumber(c.conn), env.stamp(k), Decode(p.data).value.payload);
      TrackSequenced(c, Recovery.InFlight(NextNumber(c.conn).localPacketNumber, env.time(k), |d|, d, true), u);
    } else {
      SkipSequenced(c, u);
    }
  }

  lemma LargestAfter(s: Recovery.State, ack: u64, now: u64)
    ensures Recovery.OnAck(s, ack, now).state.largestAcked == Max(s.largestAcked, ack)
  {
  }

  lemma KeptWasQueued(s: Recovery.State, ack: u64, now: u64)
    ensures forall p :: p in Recovery.OnAck(s, ack, now).state.inFlight ==> p in s.inFlight
  {
    Recovery.SelectMembers(s.inFlight, Recovery.Kept, ack, Max(s.largestAcked, ack), now);
  }

  lemma AckedSequenced(c: Client, u: Client, h: Header, now: u64)
    requires Sequenced(c) && h.latestAck <= c.conn.localPacketNumber
    requires u.conn.localPacketNumber == c.conn.localPacketNumber
    requires u.recovery == Recovery.OnAck(c.recovery, h.latestAck, now).state
    ensures Sequenced(u)
  {
    hide Recovery.Ordered, Recovery.OnAck;
    Recovery.AckKeepsOrder(c.recovery, h.latestAck, now);
    LargestAfter(c.recovery, h.latestAck, now);
    KeptWasQueued(c.recovery, h.latestAck, now);
    assert forall i :: 0 <= i < |u.recovery.inFlight| ==> u.recovery.inFlight[i] in u.recovery.inFlight;
  }

  lemma LostFewerThanQueued(c: Client, h: Header, now: u64)
    ensures |Recovery.OnAck(c.recovery, h.latestAck, now).lost| <= |c.recovery.inFlight|
  {
  }

  lemma AckSequenced(c: Client, h: Header, env: AckEnv)
    requires Sequenced(c) && h.latestAck <= c.conn.localPacketNumber
    requires c.conn.localPacketNumber + |c.recovery.inFlight| < U64_LIMIT
    ensures Sequenced(ProcessHeader(c, h, env).client)
    ensures ProcessHeader(c, h, env).client.conn.localPacketNumber >= c.conn.localPacketNumber
  {
    hide Sequenced, CountAcks, Resend, Recovery.OnAck, RttSample;
    var a := Recovery.OnAck(c.recovery, h.latestAck, env.ackNow);
    var rtt := RttSample(h.ackTimestampEcho, env.rttNow);
    var c0 := TakeAck(c, h, a.state);
    var c1 := CountAcks(c0, a.acked, rtt, env.now);
    CountAcksEffect(c0, a.acked, rtt, env.now);
    AckedSequenced(c, c1, h, env.ackNow);
    LostFewerThanQueued(c, h, env.ackNow);
    ResendSequenced(c1, a.lost, env);
    SkipSequenced(Resend(c1, a.lost, env).client, ProcessHeader(c, h, env).client);
  }

  // ---------------------------------------------------------------- times

  /** Send times never decrease along the queue and none lies after `clock`. */
  ghost predicate Timed(c: Client, clock: u64) {
    Recovery.Stamped(c.recovery.inFlight) && Recovery.Past(c.recovery.inFlight, clock)
  }

  /** Readings of the wall clock between `from` and `to`, in the order they are taken. */
  ghost predicate EnvOrdered(env: AckEnv, from: u64, to: u64) {
    && from <= env.rttNow <= env.ackNow <= to
    && (forall k: nat :: env.ackNow <= env.stamp(k) <= env.time(k) <= to)
    && (forall j: nat, k: nat :: j < k ==> env.time(j) <= env.stamp(k))
  }

  lemma TrackTimed(c: Client, p: Recovery.InFlight, u: Client, clock: u64)
    requires Timed(c, clock) && clock <= p.sentTime && u.recovery == Recovery.OnSent(c.recovery, p)
    ensures Timed(u, p.sentTime)
  {
  }

  lemma SkipTimed(c: Client, u: Client, clock: u64, later: u64)
    requires Timed(c, clock) && clock <= later && u.recovery == c.recovery
    ensures Timed(u, later)
  {
  }

  lemma SendTimed(c: Client, payload: bytes, env: SendEnv, clock: u64)
    requires Timed(c, clock) && clock <= env.sentTime
    ensures Timed(Send(c, payload, env).client, env.sentTime)
  {
    hide Send, Encode, Timed, Recovery.OnSent;
    SendEffect(c, payload, env);
    var u := Send(c, payload, env).client;
    if env.ok {
      var d := Outgoing(NextNumber(c.conn), env.stamp, payload);
      var n := NextNumber(c.conn).localPacketNumber;
      TrackTimed(c, Recovery.InFlight(n, env.sentTime, |payload| + HEADER_SIZE, d, false), u, clock);
    } else {
      SkipTimed(c, u, clock, env.sentTime);
    }
  }

  /** Clock after the first `n` retransmissions. */
  function TimeAfter(env: AckEnv, n: nat): u64 {
    if n == 0 then env.ackNow else env.time(n - 1)
  }

  lemma {:induction false} ResendTimed(c: Client, lost: seq<Recovery.InFlight>, env: AckEnv, from: u64, to: u64)
    requires Timed(c, env.ackNow) && EnvOrdered(env, from, to)
    ensures Timed(Resend(c, lost, env).client, TimeAfter(env, |lost|))
  {
    hide ResendOne, Timed, Recovery.OnSent, Decode, Encode;
    if lost != [] {
      var n := |lost| - 1;
      ResendTimed(c, lost[..n], env, from, to);
      var o := Resend(c, lost[..n], env);
      var clock := TimeAfter(env, n);
      assert env.ackNow <= env.stamp(n) <= env.time(n);
      assert n > 0 ==> env.time(n - 1) <= env.stamp(n);
      if o.failed {
        SkipTimed(o.client, o.client, clock, env.time(n));
      } else {
        ResendOneTimed(o, lost[n], n, env, clock);
      }
    }
  }

  lemma ResendOneTimed(o: Outcome, p: Recovery.InFlight, k: nat, env: AckEnv, clock: u64)
    requires Timed(o.client, clock) && clock <= env.time(k)
    ensures Timed(ResendOne(o, p, k, env).client, env.time(k))
  {
    hide ResendOne, Timed, Recovery.OnSent, Decode, Encode;
    ResendOneEffect(o, p, k, env);
    var c, u := o.client, ResendOne(o, p, k, env).client;
    if Decode(p.data).Some? && env.ok(k) {
      var d := Outgoing(NextNumber(c.conn), env.stamp(k), Decode(p.data).value.payload);
      TrackTimed(c, Recovery.InFlight(NextNumber(c.conn).localPacketNumber, env.time(k), |d|, d, true), u, clock);
    } else {
      SkipTimed(c, u, clock, env.time(k));
    }
  }

  lemma AckedTimed(c: Client, u: Client, h: Header, now: u64, clock: u64)
    requires Timed(c, clock) && clock <= now
    requires u.recovery == Recovery.OnAck(c.recovery, h.latestAck, now).state
    ensures Timed(u, now)
  {
    hide Recovery.Select, Recovery.Stamped;
    Recovery.SelectKeepsStamped(c.recovery.inFlight, Recovery.Kept, h.latestAck,
                                Max(c.recovery.largestAcked, h.latestAck), now);
    KeptWasQueued(c.recovery, h.latestAck, now);
    assert forall i :: 0 <= i < |u.recovery.inFlight| ==> u.recovery.inFlight[i] in u.recovery.inFlight;
  }

  lemma AckTimed(c: Client, h: Header, env: AckEnv, clock: u64, to: u64)
    requires Timed(c, clock) && EnvOrdered(env, clock, to)
    ensures Timed(ProcessHeader(c, h, env).client, to)
  {
    hide Timed, CountAcks, Resend, Recovery.OnAck, RttSample, TimeAfter;
    var a := Recovery.OnAck(c.recovery, h.latestAck, env.ackNow);
    var rtt := RttSample(h.ackTimestampEcho, env.rttNow);
    var c0 := TakeAck(c, h, a.state);
    var c1 := CountAcks(c0, a.acked, rtt, env.now);
    CountAcksEffect(c0, a.acked, rtt, env.now);
    AckedTimed(c, c1, h, env.ackNow, clock);
    ResendTimed(c1, a.lost, env, clock, to);
    TimeWithin(env, |a.lost|, clock, to);
    SkipTimed(Resend(c1, a.lost, env).client, ProcessHeader(c, h, env).client, TimeAfter(env, |a.lost|), to);
  }

  lemma TimeWithin(env: AckEnv, n: nat, from: u64, to: u64)
    requires EnvOrdered(env, from, to)
    ensures TimeAfter(env, n) <= to
  {
    if n > 0 {
      assert env.ackNow <= env.stamp(n - 1) <= env.time(n - 1) <= to;
    }
  }
}
