/** Per-peer connection bookkeeping (protocol.rs), shared by client and server. */
module Connection {
  import opened Numbers
  import opened Wire

  datatype Conn = Conn(
    localPacketNumber: u64,
    peerLatestAck: u64,
    lastReceivedPacket: u64,
    lastReceivedTimestamp: u64,
    established: bool)

  const UNCONNECTED := Conn(0, 0, 0, 0, false)

  function NextNumber(c: Conn): Conn {
    c.(localPacketNumber := WrappingInc(c.localPacketNumber))
  }

  /** The most recent packet is remembered, whether or not its number is the highest. */
  function Received(c: Conn, h: Header): Conn {
    Conn(c.localPacketNumber, h.latestAck, h.packetNumber, h.timestamp, true)
  }

  function ReceivedAll(c: Conn, hs: seq<Header>): Conn {
    if hs == [] then c else Received(ReceivedAll(c, hs[..|hs| - 1]), hs[|hs| - 1])
  }

  /** What the next packet will acknowledge is the most recently received number. */
  lemma LatestAckIsMostRecent(c: Conn, hs: seq<Header>)
    requires hs != []
    ensures var last := hs[|hs| - 1]; var u := ReceivedAll(c, hs);
      && u.lastReceivedPacket == last.packetNumber && u.lastReceivedTimestamp == last.timestamp
      && u.peerLatestAck == last.latestAck && u.established
      && u.localPacketNumber == c.localPacketNumber
  {
    LocalUntouched(c, hs);
  }

  lemma {:induction false} LocalUntouched(c: Conn, hs: seq<Header>)
    ensures ReceivedAll(c, hs).localPacketNumber == c.localPacketNumber
  {
    if hs != [] {
      LocalUntouched(c, hs[..|hs| - 1]);
    }
  }

  /** A connection counts as established exactly once something was received. */
  lemma EstablishedIff(hs: seq<Header>)
    ensures ReceivedAll(UNCONNECTED, hs).established <==> hs != []
  {
  }

  /** The highest number received: by `c` before, or in `hs`. */
  function HighestReceived(c: Conn, hs: seq<Header>): (m: u64)
    ensures m >= c.lastReceivedPacket && forall i :: 0 <= i < |hs| ==> hs[i].packetNumber <= m
    ensures m == c.lastReceivedPacket || exists i :: 0 <= i < |hs| && hs[i].packetNumber == m
  {
    if hs == [] then c.lastReceivedPacket
    else Max(HighestReceived(c, hs[..|hs| - 1]), hs[|hs| - 1].packetNumber)
  }

  /** Numbers arrive in non-decreasing order, none below the one `c` recorded last. */
  ghost predicate ArriveInOrder(c: Conn, hs: seq<Header>) {
    && (forall i :: 0 <= i < |hs| ==> c.lastReceivedPacket <= hs[i].packetNumber)
    && (forall i, j :: 0 <= i < j < |hs| ==> hs[i].packetNumber <= hs[j].packetNumber)
  }

  ghost predicate IsHighest(c: Conn, hs: seq<Header>) {
    ReceivedAll(c, hs).lastReceivedPacket == HighestReceived(c, hs)
  }

  /** The recorded number is the highest one received, at every moment. */
  ghost predicate AlwaysHighest(c: Conn, hs: seq<Header>) {
    forall i :: 0 <= i <= |hs| ==> IsHighest(c, hs[..i])
  }

  lemma AlwaysHighestStep(c: Conn, hs: seq<Header>)
    requires hs != []
    ensures AlwaysHighest(c, hs) <==> AlwaysHighest(c, hs[..|hs| - 1]) && IsHighest(c, hs)
    ensures AlwaysHighest(c, hs[..|hs| - 1]) ==> IsHighest(c, hs[..|hs| - 1])
  {
    hide IsHighest;
    var n := |hs| - 1;
    assert hs[..|hs|] == hs && hs[..n][..n] == hs[..n];
    assert forall i :: 0 <= i <= n ==> hs[..n][..i] == hs[..i];
  }

  lemma ArriveStep(c: Conn, hs: seq<Header>)
    requires hs != []
    ensures ArriveInOrder(c, hs)
       <==> ArriveInOrder(c, hs[..|hs| - 1]) && HighestReceived(c, hs[..|hs| - 1]) <= hs[|hs| - 1].packetNumber
  {
    hide HighestReceived;
    var init := hs[..|hs| - 1];
    assert forall i :: 0 <= i < |init| ==> hs[i] == init[i];
    var m := HighestReceived(c, init);
    if ArriveInOrder(c, hs) && m != c.lastReceivedPacket {
      var i :| 0 <= i < |init| && init[i].packetNumber == m;
    }
  }

  /** The documented "highest packet number received" holds at every moment if and only if
      packets arrive in the order of their numbers. */
  lemma {:induction false} LatestAckIsHighestIffInOrder(c: Conn, hs: seq<Header>)
    ensures AlwaysHighest(c, hs) <==> ArriveInOrder(c, hs)
  {
    if hs == [] {
      assert hs[..0] == [];
    } else {
      hide AlwaysHighest, ArriveInOrder, ReceivedAll;
      var init := hs[..|hs| - 1];
      LatestAckIsHighestIffInOrder(c, init);
      AlwaysHighestStep(c, hs);
      ArriveStep(c, hs);
      LatestAckIsMostRecent(c, hs);
    }
  }

  /** Reordering makes it differ from the documented "highest number received": after
      packets 2 and then 1 the connection acknowledges 1. */
  lemma LatestAckIsNotHighest(c: Conn, t: u64)
    ensures ReceivedAll(c, [Header(2, t, 0, 0), Header(1, t, 0, 0)]).lastReceivedPacket == 1
  {
    var hs := [Header(2, t, 0, 0), Header(1, t, 0, 0)];
    LatestAckIsMostRecent(c, hs);
  }

  class ConnectionState {
    var localPacketNumber: u64
    var peerLatestAck: u64
    var lastReceivedPacket: u64
    var lastReceivedTimestamp: u64
    var established: bool

    ghost function Model(): Conn
      reads this
    {
      Conn(localPacketNumber, peerLatestAck, lastReceivedPacket, lastReceivedTimestamp, established)
    }

    constructor ()
      ensures Model() == UNCONNECTED
    {
      localPacketNumber, peerLatestAck, lastReceivedPacket, lastReceivedTimestamp := 0, 0, 0, 0;
      established := false;
    }

    method NextPacketNumber() returns (n: u64)
      modifies this
      ensures Model() == NextNumber(old(Model())) && n == localPacketNumber
    {
      localPacketNumber := WrappingInc(localPacketNumber);
      n := localPacketNumber;
    }

    method UpdateFromReceived(header: Header)
      modifies this
      ensures Model() == Received(old(Model()), header)
    {
      peerLatestAck := header.latestAck;
      lastReceivedPacket := header.packetNumber;
      lastReceivedTimestamp := header.timestamp;
      if !established {
        established := true;
      }
    }
  }
}
