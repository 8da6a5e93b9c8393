/** The server session (server.rs): every decodable packet is acknowledged, download
    requests are answered with bursts of fragments. Clock readings and the outcomes of
    socket sends are parameters, indexed by the datagrams handed to the socket. */
module Server {
  import opened Numbers
  import opened Wire
  import opened Connection

  type Addr = nat

  const MAX_UDP_PAYLOAD: nat := 1400
  const ROUNDS: nat := 10

  datatype Session = Session(
    conn: Conn,
    totalBytes: nat,
    packetsReceived: nat,
    localPacketNumber: u64,
    downloadMode: bool,
    downloadPayloadSize: u64)

  const NEW_SESSION := Session(UNCONNECTED, 0, 0, 0, false, 1024)

  // ---------------------------------------------------------------- the download request

  /** "DOWNLOAD" and "DOWNLOAD:" in ASCII. */
  const DOWNLOAD: bytes := [68, 79, 87, 78, 76, 79, 65, 68]
  const DOWNLOAD_COLON: bytes := [68, 79, 87, 78, 76, 79, 65, 68, 58]

  predicate IsDigit(b: byte) {
    48 <= b <= 57
  }

  /** Digits only; fails as soon as the value leaves 64 bits. */
  function ParseDigits(b: bytes): Option<u64> {
    if b == [] then Some(0)
    else
      match ParseDigits(b[..|b| - 1])
      case None => None
      case Some(v) =>
        var last := b[|b| - 1];
        if IsDigit(last) && v * 10 + (last - 48) < U64_LIMIT then Some(v * 10 + (last - 48)) else None
  }

  /** `str::parse::<usize>`: one optional plus sign, then at least one digit. Bytes that are
      not valid UTF-8 are not digits, so they fail here as they fail in the conversion. */
  function ParseUsize(b: bytes): Option<u64> {
    var digits := if b != [] && b[0] == 43 then b[1..] else b;
    if digits == [] then None else ParseDigits(digits)
  }

  /** Decimal text of a number, as the client writes it. */
  function FormatDecimal(n: nat): (b: bytes)
    ensures b != []
  {
    if n < 10 then [48 + n] else FormatDecimal(n / 10) + [48 + n % 10]
  }

  /** Payload of the client's download request. */
  function DownloadCommand(size: u64): bytes {
    DOWNLOAD_COLON + FormatDecimal(size)
  }

  /** The size a payload asks for, when it is a request whose size parses. */
  function RequestedSize(payload: bytes): Option<u64> {
    if DOWNLOAD_COLON <= payload then ParseUsize(payload[|DOWNLOAD_COLON|..]) else None
  }

  /** A request that does not parse keeps the size requested before, or 1024 at first. */
  function ReadCommand(s: Session, payload: bytes): Session {
    if !(DOWNLOAD <= payload) then s
    else
      var size := RequestedSize(payload);
      s.(downloadMode := true, downloadPayloadSize := if size.Some? then size.value else s.downloadPayloadSize)
  }

  // ---------------------------------------------------------------- sending

  datatype Env = Env(stamp: nat -> u64, ok: nat -> bool)

  /** One datagram handed to the socket, and whether the socket took it. */
  datatype Attempt = Attempt(datagram: bytes, ok: bool)

  datatype Progress = Progress(session: Session, attempts: seq<Attempt>)

  function NextSessionNumber(s: Session): Session {
    s.(localPacketNumber := WrappingInc(s.localPacketNumber))
  }

  function Zeros(n: nat): (z: bytes)
    ensures |z| == n && forall i :: 0 <= i < n ==> z[i] == 0
  {
    seq(n, _ => 0)
  }

  /** Number, build and send the next packet. */
  function Emit(p: Progress, latestAck: u64, echo: u64, payload: bytes, env: Env): (q: Progress)
    ensures |q.attempts| == |p.attempts| + 1
  {
    var s := NextSessionNumber(p.session);
    var k := |p.attempts|;
    var d := Encode(Packet(Header(s.localPacketNumber, env.stamp(k), latestAck, echo), payload));
    Progress(s, p.attempts + [Attempt(d, env.ok(k))])
  }

  /** One payload cut into fragments; a failed send gives up the rest of this payload. */
  function SendFragments(p: Progress, remaining: nat, env: Env): Progress
    decreases remaining
  {
    if remaining == 0 then p
    else
      var size := Min(remaining, MAX_UDP_PAYLOAD);
      var q := Emit(p, 0, 0, Zeros(size), env);
      if env.ok(|p.attempts|) then SendFragments(q, remaining - size, env) else q
  }

  /** The burst: a failed unfragmented packet ends it, a failed fragment does not. */
  function Burst(p: Progress, size: nat, rounds: nat, env: Env): Progress
    decreases rounds
  {
    if rounds == 0 then p
    else if size <= MAX_UDP_PAYLOAD then
      var q := Emit(p, 0, 0, Zeros(size), env);
      if env.ok(|p.attempts|) then Burst(q, size, rounds - 1, env) else q
    else Burst(SendFragments(p, size, env), size, rounds - 1, env)
  }

  function Account(s: Session, packet: Packet): Session {
    s.(conn := Received(s.conn, packet.header),
       totalBytes := s.totalBytes + |packet.payload|,
       packetsReceived := s.packetsReceived + 1)
  }

  function Handle(s: Session, packet: Packet, env: Env): Progress {
    var s1 := Account(ReadCommand(s, packet.payload), packet);
    var p := Emit(Progress(s1, []), packet.header.packetNumber, packet.header.timestamp, [], env);
    if env.ok(0) && s1.downloadMode then Burst(p, s1.downloadPayloadSize, ROUNDS, env) else p
  }

  type Clients = map<Addr, Session>

  function SessionOf(clients: Clients, addr: Addr): Session {
    if addr in clients then clients[addr] else NEW_SESSION
  }

  datatype Reply = Reply(clients: Clients, attempts: seq<Attempt>)

  function HandleDatagram(clients: Clients, addr: Addr, data: bytes, env: Env): Reply {
    match Decode(data)
    case None => Reply(clients, [])
    case Some(packet) =>
      var p := Handle(SessionOf(clients, addr), packet, env);
      Reply(clients[addr := p.session], p.attempts)
  }

  // ---------------------------------------------------------------- the object

  class StpServer {
    var clients: Clients

    constructor ()
      ensures clients == map[]
    {
      clients := map[];
    }

    /** Take the next packet number of a known client, build the packet and send it. */
    method SendTo(addr: Addr, latestAck: u64, echo: u64, payload: bytes, env: Env, attempts: seq<Attempt>)
      returns (sent: bool, all: seq<Attempt>)
      requires addr in clients
      modifies this
      ensures var q := Emit(Progress(old(clients)[addr], attempts), latestAck, echo, payload, env);
        clients == old(clients)[addr := q.session] && all == q.attempts
      ensures sent == env.ok(|attempts|)
    {
      var session := NextSessionNumber(clients[addr]);
      clients := clients[addr := session];
      var k := |attempts|;
      var datagram := EncodeThroughBuffer(
        Packet(Header(session.localPacketNumber, env.stamp(k), latestAck, echo), payload));
      sent := env.ok(k);
      all := attempts + [Attempt(datagram, sent)];
    }

    /** Inner loop of the burst: one payload in fragments. */
    method SendInFragments(addr: Addr, size: nat, env: Env, before: seq<Attempt>) returns (attempts: seq<Attempt>)
      requires addr in clients
      modifies this
      ensures var q := SendFragments(Progress(old(clients)[addr], before), size, env);
        clients == old(clients)[addr := q.session] && attempts == q.attempts
    {
      hide Emit;
      var remaining := size;
      attempts := before;
      ghost var goal := SendFragments(Progress(clients[addr], before), size, env);
      while remaining > 0
        invariant addr in clients && clients == old(clients)[addr := clients[addr]]
        invariant SendFragments(Progress(clients[addr], attempts), remaining, env) == goal
      {
        var fragmentSize := Min(remaining, MAX_UDP_PAYLOAD);
        var sent, all := SendTo(addr, 0, 0, Zeros(fragmentSize), env, attempts);
        attempts := all;
        if !sent {
          assert Progress(clients[addr], attempts) == goal;
          return;
        }
        remaining := remaining - fragmentSize;
      }
    }

    method SendBurst(addr: Addr, size: nat, env: Env, before: seq<Attempt>) returns (attempts: seq<Attempt>)
      requires addr in clients
      modifies this
      ensures var q := Burst(Progress(old(clients)[addr], before), size, ROUNDS, env);
        clients == old(clients)[addr := q.session] && attempts == q.attempts
    {
      hide Emit, SendFragments;
      attempts := before;
      ghost var goal := Burst(Progress(clients[addr], before), size, ROUNDS, env);
      for round := 0 to ROUNDS
        invariant addr in clients && clients == old(clients)[addr := clients[addr]]
        invariant Burst(Progress(clients[addr], attempts), size, ROUNDS - round, env) == goal
      {
        if size <= MAX_UDP_PAYLOAD {
          var sent, all := SendTo(addr, 0, 0, Zeros(size), env, attempts);
          attempts := all;
          if !sent {
            assert Progress(clients[addr], attempts) == goal;
            return;
          }
        } else {
          attempts := SendInFragments(addr, size, env, attempts);
        }
      }
    }

    method HandleStpPacket(addr: Addr, data: bytes, env: Env) returns (attempts: seq<Attempt>)
      modifies this
      ensures Reply(clients, attempts) == HandleDatagram(old(clients), addr, data, env)
    {
      hide Emit, Burst, Decode, ReadCommand;
      var decoded := Decode(data);
      if decoded.None? {
        return [];
      }
      var packet := decoded.value;
      ghost var before := SessionOf(clients, addr);
      if addr !in clients {
        clients := clients[addr := NEW_SESSION];
      }
      var session := ReadCommand(clients[addr], packet.payload);
      session := Account(session, packet);
      clients := clients[addr := session];
      var acked, sent := SendTo(addr, packet.header.packetNumber, packet.header.timestamp, [], env, []);
      attempts := sent;
      if acked && session.downloadMode {
        attempts := SendBurst(addr, session.downloadPayloadSize, env, attempts);
      }
      assert Progress(clients[addr], attempts) == Handle(before, packet, env);
      assert clients == old(clients)[addr := clients[addr]];
    }
  }
}
