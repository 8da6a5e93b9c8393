/** What the server keeps over every sequence of datagrams from every sender. */
module ServerRuns {
  import opened Numbers
  import opened Wire
  import opened Connection
  import opened Server

  // ---------------------------------------------------------------- download requests

  lemma {:induction false} ParseDigitsFormat(n: u64)
    ensures ParseDigits(FormatDecimal(n)) == Some(n)
    ensures forall i :: 0 <= i < |FormatDecimal(n)| ==> IsDigit(FormatDecimal(n)[i])
  {
    var b := FormatDecimal(n);
    if n < 10 {
      assert b[..0] == [];
    } else {
      ParseDigitsFormat(n / 10);
      assert b[..|b| - 1] == FormatDecimal(n / 10);
    }
  }

  lemma ParseFormat(n: u64)
    ensures ParseUsize(FormatDecimal(n)) == Some(n)
  {
    ParseDigitsFormat(n);
    assert IsDigit(FormatDecimal(n)[0]);
  }

  /** For every size, the request the client formats puts the session in download mode with
      exactly that size. */
  lemma DownloadRoundTrip(s: Session, size: u64)
    ensures var t := ReadCommand(s, DownloadCommand(size));
      t == s.(downloadMode := true, downloadPayloadSize := size)
  {
    var c := DownloadCommand(size);
    assert DOWNLOAD_COLON[..|DOWNLOAD|] == DOWNLOAD;
    assert c[..|DOWNLOAD|] == DOWNLOAD;
    assert c[|DOWNLOAD_COLON|..] == FormatDecimal(size);
    ParseFormat(size);
  }

  function Pow10(n: nat): (p: nat)
    ensures p > 0
  {
    if n == 0 then 1 else 10 * Pow10(n - 1)
  }

  predicate AllDigits(b: bytes) {
    forall i :: 0 <= i < |b| ==> IsDigit(b[i])
  }

  /** Value of a decimal numeral: each digit times the power of ten of its place. */
  function DecimalValue(b: bytes): nat
    requires AllDigits(b)
  {
    if b == [] then 0 else (b[0] - 48) * Pow10(|b| - 1) + DecimalValue(b[1..])
  }

  lemma {:induction false} DecimalValueAppend(b: bytes, d: byte)
    requires AllDigits(b) && IsDigit(d)
    ensures AllDigits(b + [d]) && DecimalValue(b + [d]) == 10 * DecimalValue(b) + (d - 48)
  {
    assert forall i :: 0 <= i < |b + [d]| ==> (b + [d])[i] == if i < |b| then b[i] else d;
    if b == [] {
      assert [d][1..] == [];
    } else {
      DecimalValueAppend(b[1..], d);
      assert (b + [d])[1..] == b[1..] + [d];
      TenTimes(b[0] - 48, Pow10(|b| - 1));
    }
  }

  lemma TenTimes(x: int, p: int)
    ensures x * (10 * p) == 10 * (x * p)
  {
  }

  /** The size parser accepts exactly the digit strings whose decimal value fits 64 bits,
      leading zeros included, and returns that value; giving up early never refuses one. */
  lemma {:induction false} ParseDigitsValue(b: bytes)
    ensures ParseDigits(b) == if AllDigits(b) && DecimalValue(b) < U64_LIMIT then Some(DecimalValue(b)) else None
  {
    if b != [] {
      var init, d := b[..|b| - 1], b[|b| - 1];
      assert b == init + [d];
      ParseDigitsValue(init);
      assert AllDigits(b) <==> AllDigits(init) && IsDigit(d);
      if AllDigits(b) {
        DecimalValueAppend(init, d);
      }
    }
  }

  /** The command is the ASCII text "DOWNLOAD:". */
  lemma CommandText(i: nat)
    ensures |DOWNLOAD_COLON| == 9 && |DOWNLOAD| == 8
    ensures i < 9 ==> DOWNLOAD_COLON[i] as char == "DOWNLOAD:"[i]
    ensures i < 8 ==> DOWNLOAD[i] == DOWNLOAD_COLON[i]
  {
  }

  /** What the client writes is the decimal numeral of the size, without leading zeros. */
  lemma {:induction false} FormatValue(n: nat)
    ensures var b := FormatDecimal(n);
      && AllDigits(b) && DecimalValue(b) == n
      && (|b| > 1 ==> b[0] != 48)
  {
    var b := FormatDecimal(n);
    if n < 10 {
      assert b[1..] == [];
    } else {
      FormatValue(n / 10);
      DecimalValueAppend(FormatDecimal(n / 10), 48 + n % 10);
      NoLeadingZero(n / 10);
    }
  }

  lemma {:induction false} NoLeadingZero(n: nat)
    requires n > 0
    ensures FormatDecimal(n)[0] != 48
  {
    if n >= 10 {
      NoLeadingZero(n / 10);
    }
  }

  /** What the server accepts as a size: a decimal numeral that fits 64 bits, with or without
      one plus sign, and nothing else. */
  lemma ParseUsizeValue(b: bytes)
    ensures var digits := if |b| > 0 && b[0] as char == '+' then b[1..] else b;
      ParseUsize(b) == if digits != [] && AllDigits(digits) && DecimalValue(digits) < U64_LIMIT
                       then Some(DecimalValue(digits)) else None
  {
    hide ParseDigits, DecimalValue;
    ParseDigitsValue(b);
    if |b| > 0 {
      ParseDigitsValue(b[1..]);
    }
  }

  // ---------------------------------------------------------------- one packet

  function NumberOf(a: Attempt): u64 {
    if Decode(a.datagram).Some? then Decode(a.datagram).value.header.packetNumber else 0
  }

  function SizeOf(a: Attempt): nat {
    if |a.datagram| < HEADER_SIZE then 0 else |a.datagram| - HEADER_SIZE
  }

  /** The attempts are numbered base+1, base+2, ... and the session counter stands at the
      last of them, unless the 64-bit counter has run over. */
  ghost predicate Numbered(p: Progress, base: nat) {
    base + |p.attempts| < U64_LIMIT ==>
      && p.session.localPacketNumber == base + |p.attempts|
      && forall i :: 0 <= i < |p.attempts| ==> NumberOf(p.attempts[i]) == base + i + 1
  }

  ghost predicate AllZero(payload: bytes) {
    forall i :: 0 <= i < |payload| ==> payload[i] == 0
  }

  /** Attempts from index `from` on carry zeros and acknowledge nothing. */
  ghost predicate PlainFrom(p: Progress, from: nat) {
    forall i :: from <= i < |p.attempts| ==> IsPlain(p.attempts[i].datagram)
  }

  ghost predicate IsPlain(datagram: bytes) {
    var d := Decode(datagram);
    d.Some? && d.value.header.latestAck == 0 && d.value.header.ackTimestampEcho == 0 && AllZero(d.value.payload)
  }

  ghost predicate FollowsEnv(p: Progress, env: Env) {
    forall i :: 0 <= i < |p.attempts| ==> p.attempts[i].ok == env.ok(i)
  }

  lemma EmitDecodes(p: Progress, latestAck: u64, echo: u64, payload: bytes, env: Env)
    ensures var q := Emit(p, latestAck, echo, payload, env); var a := q.attempts[|p.attempts|];
      && q.attempts == p.attempts + [a] && a.ok == env.ok(|p.attempts|)
      && Decode(a.datagram)
         == Some(Packet(Header(q.session.localPacketNumber, env.stamp(|p.attempts|), latestAck, echo), payload))
      && SizeOf(a) == |payload|
      && q.session == NextSessionNumber(p.session)
  {
    var s := NextSessionNumber(p.session);
    DecodeEncode(Packet(Header(s.localPacketNumber, env.stamp(|p.attempts|), latestAck, echo), payload));
  }

  /** Everything except the packet counter. */
  ghost predicate SameButNumber(s: Session, t: Session) {
    s == t.(localPacketNumber := s.localPacketNumber)
  }

  ghost predicate Kept(p: Progress, q: Progress, env: Env, base: nat, from: nat) {
    && |p.attempts| <= |q.attempts| && q.attempts[..|p.attempts|] == p.attempts
    && SameButNumber(q.session, p.session)
    && (Numbered(p, base) ==> Numbered(q, base))
    && (PlainFrom(p, from) ==> PlainFrom(q, from))
    && (FollowsEnv(p, env) ==> FollowsEnv(q, env))
  }

  lemma EmitKeeps(p: Progress, payload: bytes, env: Env, base: nat, from: nat)
    requires AllZero(payload)
    ensures Kept(p, Emit(p, 0, 0, payload, env), env, base, from)
  {
    hide Emit;
    EmitDecodes(p, 0, 0, payload, env);
  }

  lemma KeptTransitive(p: Progress, q: Progress, r: Progress, env: Env, base: nat, from: nat)
    requires Kept(p, q, env, base, from) && Kept(q, r, env, base, from)
    ensures Kept(p, r, env, base, from)
  {
    hide Numbered, PlainFrom, FollowsEnv;
    assert r.attempts[..|p.attempts|] == r.attempts[..|q.attempts|][..|p.attempts|];
  }

  lemma KeptRefl(p: Progress, env: Env, base: nat, from: nat)
    ensures Kept(p, p, env, base, from)
  {
    hide Numbered, PlainFrom, FollowsEnv;
    assert p.attempts[..|p.attempts|] == p.attempts;
  }

  lemma {:induction false} FragmentsKeep(p: Progress, remaining: nat, env: Env, base: nat, from: nat)
    ensures Kept(p, SendFragments(p, remaining, env), env, base, from)
    decreases remaining
  {
    hide Kept, Emit;
    KeptRefl(p, env, base, from);
    if remaining > 0 {
      var size := Min(remaining, MAX_UDP_PAYLOAD);
      var q := Emit(p, 0, 0, Zeros(size), env);
      EmitKeeps(p, Zeros(size), env, base, from);
      FragmentsKeep(q, remaining - size, env, base, from);
      KeptTransitiveIf(p, q, SendFragments(q, remaining - size, env), env, base, from);
    }
  }

  lemma KeptTransitiveIf(p: Progress, q: Progress, r: Progress, env: Env, base: nat, from: nat)
    requires Kept(p, q, env, base, from)
    ensures Kept(q, r, env, base, from) ==> Kept(p, r, env, base, from)
  {
    hide Kept;
    if Kept(q, r, env, base, from) {
      KeptTransitive(p, q, r, env, base, from);
    }
  }

  lemma {:induction false} BurstKeeps(p: Progress, size: nat, rounds: nat, env: Env, base: nat, from: nat)
    ensures Kept(p, Burst(p, size, rounds, env), env, base, from)
    decreases rounds
  {
    hide Kept, Emit, SendFragments;
    KeptRefl(p, env, base, from);
    if rounds > 0 {
      EmitKeeps(p, Zeros(size), env, base, from);
      FragmentsKeep(p, size, env, base, from);
      var q := if size <= MAX_UDP_PAYLOAD then Emit(p, 0, 0, Zeros(size), env) else SendFragments(p, size, env);
      BurstKeeps(q, size, rounds - 1, env, base, from);
      KeptTransitiveIf(p, q, Burst(q, size, rounds - 1, env), env, base, from);
    }
  }

  /** Handling one packet: the first datagram is its ACK (number and timestamp echoed), all
      others acknowledge nothing; numbers continue without gap across ACK and burst; the
      counters grow by this packet, and download mode is never left. */
  lemma HandleOnePacket(s: Session, packet: Packet, env: Env)
    ensures var p, t := Handle(s, packet, env), ReadCommand(s, packet.payload);
      && |p.attempts| >= 1 && FollowsEnv(p, env)
      && Numbered(p, s.localPacketNumber) && PlainFrom(p, 1)
      && (var ack := Decode(p.attempts[0].datagram);
          && ack.Some? && ack.value.payload == []
          && ack.value.header.latestAck == packet.header.packetNumber
          && ack.value.header.ackTimestampEcho == packet.header.timestamp)
      && p.session.totalBytes == s.totalBytes + |packet.payload|
      && p.session.packetsReceived == s.packetsReceived + 1
      && p.session.conn == Received(s.conn, packet.header)
      && p.session.downloadMode == (s.downloadMode || DOWNLOAD <= packet.payload)
      && p.session.downloadPayloadSize == t.downloadPayloadSize
  {
    hide Emit, Burst, ParseUsize, Decode;
    var s1 := Account(ReadCommand(s, packet.payload), packet);
    var start := Progress(s1, []);
    var p := Emit(start, packet.header.packetNumber, packet.header.timestamp, [], env);
    EmitDecodes(start, packet.header.packetNumber, packet.header.timestamp, [], env);
    assert FollowsEnv(p, env) && PlainFrom(p, 1);
    BurstKeeps(p, s1.downloadPayloadSize, ROUNDS, env, s.localPacketNumber, 1);
    FirstNumbered(p, s.localPacketNumber);
  }

  lemma FirstNumbered(p: Progress, base: u64)
    requires |p.attempts| == 1 && p.session.localPacketNumber == WrappingInc(base)
    requires NumberOf(p.attempts[0]) == p.session.localPacketNumber
    ensures Numbered(p, base)
  {
  }

  // ---------------------------------------------------------------- the burst

  function TotalSize(a: seq<Attempt>): nat {
    if a == [] then 0 else TotalSize(a[..|a| - 1]) + SizeOf(a[|a| - 1])
  }

  /** ceil(size / 1400) */
  function Fragments(size: nat): nat {
    (size + 1399) / 1400
  }

  ghost predicate AllOk(env: Env) {
    forall i :: env.ok(i)
  }

  ghost predicate SizesIn(a: seq<Attempt>, from: nat, low: nat) {
    forall i :: from <= i < |a| ==> low <= SizeOf(a[i]) <= 1400
  }

  lemma EmitSize(p: Progress, payload: bytes, env: Env)
    ensures var q := Emit(p, 0, 0, payload, env);
      && TotalSize(q.attempts) == TotalSize(p.attempts) + |payload|
      && q.attempts[..|p.attempts|] == p.attempts && SizeOf(q.attempts[|p.attempts|]) == |payload|
  {
    hide Emit, SizeOf;
    EmitDecodes(p, 0, 0, payload, env);
    assert Emit(p, 0, 0, payload, env).attempts[..|p.attempts|] == p.attempts;
  }

  lemma FragmentCount(remaining: nat)
    requires remaining > 0
    ensures Fragments(remaining) == 1 + Fragments(remaining - Min(remaining, MAX_UDP_PAYLOAD))
  {
  }

  lemma {:induction false} FragmentsExact(p: Progress, remaining: nat, env: Env, from: nat)
    requires AllOk(env) && SizesIn(p.attempts, from, 1)
    ensures var q := SendFragments(p, remaining, env);
      && TotalSize(q.attempts) == TotalSize(p.attempts) + remaining
      && |q.attempts| == |p.attempts| + Fragments(remaining)
      && SizesIn(q.attempts, from, 1)
    decreases remaining
  {
    hide Emit, SizeOf, TotalSize;
    if remaining > 0 {
      var size := Min(remaining, MAX_UDP_PAYLOAD);
      EmitSize(p, Zeros(size), env);
      FragmentCount(remaining);
      var q := Emit(p, 0, 0, Zeros(size), env);
      assert forall i :: 0 <= i < |p.attempts| ==> q.attempts[i] == q.attempts[..|p.attempts|][i];
      FragmentsExact(q, remaining - size, env, from);
    }
  }

  /** An error-free burst sends exactly `rounds` times the requested size. Above 1400 bytes
      each payload goes out in ceil(size/1400) fragments of 1 to 1400 bytes; up to 1400 it
      is a single packet. */
  lemma {:induction false} BurstExact(p: Progress, size: nat, rounds: nat, env: Env, from: nat)
    requires AllOk(env) && SizesIn(p.attempts, from, if size == 0 then 0 else 1)
    ensures var q := Burst(p, size, rounds, env);
      && TotalSize(q.attempts) == TotalSize(p.attempts) + rounds * size
      && |q.attempts| == |p.attempts| + rounds * (if size <= 1400 then 1 else Fragments(size))
      && SizesIn(q.attempts, from, if size == 0 then 0 else 1)
    decreases rounds
  {
    hide Emit, SizeOf, TotalSize, SendFragments, Fragments;
    if rounds > 0 {
      if size <= MAX_UDP_PAYLOAD {
        EmitSize(p, Zeros(size), env);
        var q := Emit(p, 0, 0, Zeros(size), env);
        assert forall i :: 0 <= i < |p.attempts| ==> q.attempts[i] == q.attempts[..|p.attempts|][i];
        BurstExact(q, size, rounds - 1, env, from);
      } else {
        FragmentsExact(p, size, env, from);
        BurstExact(SendFragments(p, size, env), size, rounds - 1, env, from);
      }
      Peel(rounds, size);
      Peel(rounds, if size <= 1400 then 1 else Fragments(size));
    }
  }

  lemma Peel(n: nat, x: nat)
    requires n > 0
    ensures n * x == x + (n - 1) * x
  {
  }

  /** End to end: the client's request for `size` bytes, received over an error-free
      socket, is answered by one ACK and a burst of exactly ten times `size` bytes. */
  lemma DownloadAnswered(s: Session, h: Header, size: u64, env: Env)
    requires AllOk(env)
    ensures var p := Handle(s, Packet(h, DownloadCommand(size)), env);
      && p.session.downloadMode && p.session.downloadPayloadSize == size
      && TotalSize(p.attempts) == 10 * size
      && |p.attempts| == 1 + 10 * (if size <= 1400 then 1 else Fragments(size))
      && SizesIn(p.attempts, 1, if size == 0 then 0 else 1)
  {
    hide Emit, Burst, ReadCommand, DownloadCommand, Fragments, Decode, SizeOf;
    var packet := Packet(h, DownloadCommand(size));
    DownloadRoundTrip(s, size);
    var s1 := Account(ReadCommand(s, packet.payload), packet);
    var start := Progress(s1, []);
    var p := Emit(start, h.packetNumber, h.timestamp, [], env);
    EmitDecodes(start, h.packetNumber, h.timestamp, [], env);
    assert p.attempts[..0] == [];
    assert TotalSize(p.attempts) == 0;
    BurstExact(p, size, ROUNDS, env, 1);
    BurstKeeps(p, size, ROUNDS, env, 0, 1);
  }

  /** When a packet is answered with a burst, for every session and every payload: exactly when
      the ACK was accepted by the socket and the session is, or by this packet becomes, a
      download session. Otherwise the ACK is the only answer. Over an error-free socket the burst
      carries ten times the session's size, whether the packet was a request or not. */
  lemma BurstAnsweredIff(s: Session, packet: Packet, env: Env)
    ensures var p := Handle(s, packet, env);
      var downloads := s.downloadMode || DOWNLOAD <= packet.payload;
      var asked := RequestedSize(packet.payload);
      var size := if asked.Some? then asked.value else s.downloadPayloadSize;
      && (|p.attempts| > 1 <==> env.ok(0) && downloads)
      && (downloads && AllOk(env) ==>
            && TotalSize(p.attempts) == 10 * size
            && |p.attempts| == 1 + 10 * (if size <= 1400 then 1 else Fragments(size)))
  {
    hide Emit, Burst, ReadCommand, RequestedSize, Fragments, SizeOf;
    var t := Account(ReadCommand(s, packet.payload), packet);
    var h := packet.header;
    var p := Emit(Progress(t, []), h.packetNumber, h.timestamp, [], env);
    ModeAfter(s, packet.payload);
    SizeAfter(s, packet.payload);
    AckHasNoPayload(t, h, env);
    BurstUnderErrors(p, t.downloadPayloadSize, ROUNDS, env);
    if AllOk(env) {
      AckSizes(p);
      BurstExact(p, t.downloadPayloadSize, ROUNDS, env, 1);
    }
  }

  lemma AckSizes(p: Progress)
    requires |p.attempts| == 1
    ensures SizesIn(p.attempts, 1, 0) && SizesIn(p.attempts, 1, 1)
  {
  }

  lemma ModeAfter(s: Session, payload: bytes)
    ensures ReadCommand(s, payload).downloadMode == (s.downloadMode || DOWNLOAD <= payload)
  {
    hide RequestedSize;
  }

  /** The same for datagrams: an undecodable one is ignored and creates no session; any other is
      answered at its sender's address, with a burst exactly when the above says so. */
  lemma DatagramAnswered(clients: Clients, addr: Addr, data: bytes, env: Env)
    ensures var reply, s := HandleDatagram(clients, addr, data, env), SessionOf(clients, addr);
      match Decode(data)
      case None => reply == Reply(clients, [])
      case Some(packet) =>
        var downloads := s.downloadMode || DOWNLOAD <= packet.payload;
        var asked := RequestedSize(packet.payload);
        var size := if asked.Some? then asked.value else s.downloadPayloadSize;
        && reply.clients.Keys == clients.Keys + {addr}
        && |reply.attempts| >= 1
        && (|reply.attempts| > 1 <==> env.ok(0) && downloads)
        && (downloads && AllOk(env) ==> TotalSize(reply.attempts) == 10 * size)
  {
    hide Handle, Decode, RequestedSize, ReadCommand, NumberOf, Numbered, PlainFrom, FollowsEnv;
    if Decode(data).Some? {
      BurstAnsweredIff(SessionOf(clients, addr), Decode(data).value, env);
      HandleOnePacket(SessionOf(clients, addr), Decode(data).value, env);
    }
  }

  /** Sizes of the fragments of one payload: 1400 bytes each, the last one the rest. */
  lemma {:induction false} FragmentSizes(p: Progress, remaining: nat, env: Env, i: nat)
    requires |p.attempts| <= i < |SendFragments(p, remaining, env).attempts|
    ensures 1400 * (i - |p.attempts|) < remaining
    ensures SizeOf(SendFragments(p, remaining, env).attempts[i]) == Min(1400, remaining - 1400 * (i - |p.attempts|))
    decreases remaining
  {
    hide Emit, SizeOf;
    var size := Min(remaining, MAX_UDP_PAYLOAD);
    var q := Emit(p, 0, 0, Zeros(size), env);
    EmitDecodes(p, 0, 0, Zeros(size), env);
    FragmentsKeep(q, remaining - size, env, 0, 0);
    if i > |p.attempts| {
      FragmentSizes(q, remaining - size, env, i);
    } else if env.ok(|p.attempts|) {
      var all := SendFragments(q, remaining - size, env).attempts;
      assert all[..|q.attempts|][i] == all[i];
    }
  }

  lemma {:induction false} FragmentsMakeOneAttempt(p: Progress, remaining: nat, env: Env)
    requires remaining > 0
    ensures |SendFragments(p, remaining, env).attempts| >= |p.attempts| + 1
  {
    hide Emit;
    var size := Min(remaining, MAX_UDP_PAYLOAD);
    FragmentsKeep(Emit(p, 0, 0, Zeros(size), env), remaining - size, env, 0, 0);
  }

  /** Fragments of one payload are sent up to the first failure; without failure they
      carry the whole payload, with one they carry only part of it plus the failed one. */
  lemma {:induction false} FragmentsUnderErrors(p: Progress, remaining: nat, env: Env)
    ensures var q := SendFragments(p, remaining, env); var first, end := |p.attempts|, |q.attempts|;
      && first <= end && (remaining > 0 ==> end > first)
      && (forall i :: first <= i < end - 1 ==> env.ok(i))
      && TotalSize(q.attempts) <= TotalSize(p.attempts) + remaining
      && (end > first && env.ok(end - 1) ==> TotalSize(q.attempts) == TotalSize(p.attempts) + remaining)
    decreases remaining
  {
    hide Emit, SizeOf, TotalSize;
    if remaining > 0 {
      var size := Min(remaining, MAX_UDP_PAYLOAD);
      EmitSize(p, Zeros(size), env);
      FragmentsUnderErrors(Emit(p, 0, 0, Zeros(size), env), remaining - size, env);
    }
  }

  /** Fragments of one payload go out without a refusal before the last one; the last one is
      accepted exactly when all of them went out. */
  lemma {:induction false} FragmentsStop(p: Progress, remaining: nat, env: Env)
    requires remaining > 0
    ensures var first, end := |p.attempts|, |SendFragments(p, remaining, env).attempts|;
      && first < end <= first + Fragments(remaining)
      && (forall i :: first <= i < end - 1 ==> env.ok(i))
      && (env.ok(end - 1) ==> end == first + Fragments(remaining))
    decreases remaining
  {
    hide Emit, Fragments;
    FragmentCount(remaining);
    NoFragments();
    var size := Min(remaining, MAX_UDP_PAYLOAD);
    var q := Emit(p, 0, 0, Zeros(size), env);
    if env.ok(|p.attempts|) && remaining - size > 0 {
      FragmentsStop(q, remaining - size, env);
    }
  }

  lemma NoFragments()
    ensures Fragments(0) == 0
  {
  }

  /** No datagram handed to the socket in a burst follows a refused one. */
  predicate StopsAtRefusal(first: nat, end: nat, env: Env) {
    forall i :: first <= i < end - 1 ==> env.ok(i)
  }

  predicate AllAccepted(first: nat, end: nat, env: Env) {
    forall i :: first <= i < end ==> env.ok(i)
  }

  /** With send errors. "Stop if send fails" holds of a burst, that is, nothing is sent after
      a refused datagram, if and only if the payload is a single packet or every fragment of
      all payloads but the last was accepted. Otherwise the burst goes on with the next
      payload: a fragmented burst makes at least one attempt for each of its rounds. */
  lemma {:induction false} BurstUnderErrors(p: Progress, size: nat, rounds: nat, env: Env)
    ensures var first, end := |p.attempts|, |Burst(p, size, rounds, env).attempts|;
      && (rounds > 0 ==>
            (StopsAtRefusal(first, end, env)
             <==> size <= 1400 || AllAccepted(first, first + (rounds - 1) * Fragments(size), env)))
      && (size > 1400 ==> end >= first + rounds)
      && (size <= 1400 ==>
            && first <= end <= first + rounds
            && (end < first + rounds ==> end > first && !env.ok(end - 1)))
    decreases rounds
  {
    hide Emit, Fragments, SendFragments;
    if rounds == 0 {
    } else if size <= MAX_UDP_PAYLOAD {
      var q := Emit(p, 0, 0, Zeros(size), env);
      if env.ok(|p.attempts|) && rounds > 1 {
        BurstUnderErrors(q, size, rounds - 1, env);
      }
    } else {
      var q := SendFragments(p, size, env);
      var first, mid, n := |p.attempts|, |q.attempts|, Fragments(size);
      FragmentsStop(p, size, env);
      if rounds == 1 {
        assert 0 * n == 0;
      } else {
        BurstUnderErrors(q, size, rounds - 1, env);
        RefusalsOfRounds(first, mid, |Burst(q, size, rounds - 1, env).attempts|, n, rounds, env);
      }
    }
  }

  /** Joining the first payload, attempts `first` to `mid`, with the rest of the burst. */
  lemma RefusalsOfRounds(first: nat, mid: nat, end: nat, n: nat, rounds: nat, env: Env)
    requires rounds > 1 && first < mid <= first + n && mid < end
    requires forall i :: first <= i < mid - 1 ==> env.ok(i)
    requires env.ok(mid - 1) ==> mid == first + n
    requires StopsAtRefusal(mid, end, env) <==> AllAccepted(mid, mid + (rounds - 2) * n, env)
    ensures StopsAtRefusal(first, end, env) <==> AllAccepted(first, first + (rounds - 1) * n, env)
  {
    hide StopsAtRefusal, AllAccepted;
    Peel(rounds - 1, n);
    NatProduct(rounds - 2, n);
    var rest: nat, all: nat := (rounds - 2) * n, (rounds - 1) * n;
    assert all == n + rest;
    JoinRefusals(first, mid, end, n, rest, all, env);
  }

  lemma NatProduct(x: nat, y: nat)
    ensures x * y >= 0
  {
  }

  lemma JoinRefusals(first: nat, mid: nat, end: nat, n: nat, rest: nat, all: nat, env: Env)
    requires first < mid <= first + n && mid < end && all == n + rest
    requires forall i :: first <= i < mid - 1 ==> env.ok(i)
    requires env.ok(mid - 1) ==> mid == first + n
    requires StopsAtRefusal(mid, end, env) <==> AllAccepted(mid, mid + rest, env)
    ensures StopsAtRefusal(first, end, env) <==> AllAccepted(first, first + all, env)
  {
    if env.ok(mid - 1) {
      assert StopsAtRefusal(first, end, env) <==> StopsAtRefusal(mid, end, env);
      assert AllAccepted(first, first + all, env) <==> AllAccepted(mid, mid + rest, env);
    }
  }

  /** An instance: with 1401 bytes requested and the first fragment refused, the second
      payload is still attempted, and so are all the others. */
  lemma RefusedFragmentDoesNotStop(p: Progress, env: Env)
    requires !env.ok(|p.attempts|)
    ensures |Burst(p, 1401, ROUNDS, env).attempts| >= |p.attempts| + 10
    ensures !StopsAtRefusal(|p.attempts|, |Burst(p, 1401, ROUNDS, env).attempts|, env)
  {
    hide Burst;
    BurstUnderErrors(p, 1401, ROUNDS, env);
  }

  /** A download request without a parsable size, with or without the colon, sets download
      mode and nothing else: the size stays, whatever it was. */
  lemma UnparsableKeepsSize(s: Session, payload: bytes)
    requires DOWNLOAD <= payload && RequestedSize(payload).None?
    ensures ReadCommand(s, payload) == s.(downloadMode := true)
  {
  }

  // ---------------------------------------------------------------- whole runs

  datatype Arrival = Arrival(addr: Addr, data: bytes, env: Env)

  function Run(arrivals: seq<Arrival>): Clients {
    if arrivals == [] then map[]
    else
      var a := arrivals[|arrivals| - 1];
      HandleDatagram(Run(arrivals[..|arrivals| - 1]), a.addr, a.data, a.env).clients
  }

  /** Everything handed to the socket for one client, in order. */
  function Attempts(arrivals: seq<Arrival>, addr: Addr): seq<Attempt> {
    if arrivals == [] then []
    else
      var a := arrivals[|arrivals| - 1];
      var before := Attempts(arrivals[..|arrivals| - 1], addr);
      if a.addr == addr then before + HandleDatagram(Run(arrivals[..|arrivals| - 1]), a.addr, a.data, a.env).attempts
      else before
  }

  /** Payload sizes of the decodable datagrams of one client. */
  function PayloadSizes(arrivals: seq<Arrival>, addr: Addr): seq<nat> {
    if arrivals == [] then []
    else
      var a := arrivals[|arrivals| - 1];
      var before := PayloadSizes(arrivals[..|arrivals| - 1], addr);
      if a.addr == addr && |a.data| >= HEADER_SIZE then before + [|a.data| - HEADER_SIZE] else before
  }

  function Sum(xs: seq<nat>): nat {
    if xs == [] then 0 else Sum(xs[..|xs| - 1]) + xs[|xs| - 1]
  }

  /** A datagram from one address changes no other session. */
  lemma OthersUntouched(clients: Clients, addr: Addr, data: bytes, env: Env, other: Addr)
    requires other != addr
    ensures var r := HandleDatagram(clients, addr, data, env);
      && (other in r.clients <==> other in clients)
      && (other in clients ==> r.clients[other] == clients[other])
  {
    hide Handle, Decode;
  }

  ghost predicate Consecutive(attempts: seq<Attempt>) {
    forall i :: 0 <= i < |attempts| ==> NumberOf(attempts[i]) == i + 1
  }

  lemma ConsecutiveAppend(before: seq<Attempt>, p: Progress)
    requires Consecutive(before) && Numbered(p, |before|) && |before| + |p.attempts| < U64_LIMIT
    ensures Consecutive(before + p.attempts)
  {
    hide NumberOf;
    var all := before + p.attempts;
    forall i | 0 <= i < |all|
      ensures NumberOf(all[i]) == i + 1
    {
      assert all[i] == if i < |before| then before[i] else p.attempts[i - |before|];
    }
  }

  /** Session accounting over every run: the byte and packet counters are the sums over this
      client's decodable datagrams, and everything sent to it, ACKs and download data
      together, is numbered 1, 2, ..., n without gap or repeat, n being the session's
      counter. (Bound: fewer than 2^64 datagrams.) */
  lemma {:induction false} SessionAccounting(arrivals: seq<Arrival>, addr: Addr)
    ensures var s := SessionOf(Run(arrivals), addr);
      && s.totalBytes == Sum(PayloadSizes(arrivals, addr))
      && s.packetsReceived == |PayloadSizes(arrivals, addr)|
      && (|Attempts(arrivals, addr)| < U64_LIMIT ==>
            && Consecutive(Attempts(arrivals, addr))
            && s.localPacketNumber == |Attempts(arrivals, addr)|)
  {
    hide Handle, Decode, NumberOf, Consecutive, Numbered, FollowsEnv, PlainFrom, ReadCommand;
    if arrivals == [] {
      assert Consecutive([]) by { EmptyConsecutive(); }
    } else {
      var init, a := arrivals[..|arrivals| - 1], arrivals[|arrivals| - 1];
      SessionAccounting(init, addr);
      if a.addr != addr {
        OthersUntouched(Run(init), a.addr, a.data, a.env, addr);
      } else if |a.data| >= HEADER_SIZE {
        assert Decode(a.data).Some? && Decode(a.data).value.payload == a.data[HEADER_SIZE..];
        var s, packet := SessionOf(Run(init), addr), Decode(a.data).value;
        HandleOnePacket(s, packet, a.env);
        var p := Handle(s, packet, a.env);
        NumberedCounter(p, s.localPacketNumber);
        var sizes := PayloadSizes(init, addr);
        assert (sizes + [|packet.payload|])[..|sizes|] == sizes;
        if |Attempts(arrivals, addr)| < U64_LIMIT {
          ConsecutiveAppend(Attempts(init, addr), p);
        }
      } else {
        assert Decode(a.data).None?;
        assert Attempts(arrivals, addr) == Attempts(init, addr);
      }
    }
  }

  lemma EmptyConsecutive()
    ensures Consecutive([])
  {
  }

  lemma NumberedCounter(p: Progress, base: nat)
    requires Numbered(p, base)
    ensures base + |p.attempts| < U64_LIMIT ==> p.session.localPacketNumber == base + |p.attempts|
  {
  }

  /** Download mode, once set, stays set whatever arrives later. */
  lemma {:induction false} DownloadModeStays(arrivals: seq<Arrival>, addr: Addr, i: nat)
    requires i <= |arrivals| && SessionOf(Run(arrivals[..i]), addr).downloadMode
    ensures SessionOf(Run(arrivals), addr).downloadMode
    decreases |arrivals|
  {
    hide Handle, Decode, Numbered, FollowsEnv, PlainFrom;
    if i == |arrivals| {
      assert arrivals[..i] == arrivals;
    } else {
      var init, a := arrivals[..|arrivals| - 1], arrivals[|arrivals| - 1];
      assert init[..i] == arrivals[..i];
      DownloadModeStays(init, addr, i);
      if a.addr == addr && Decode(a.data).Some? {
        HandleOnePacket(SessionOf(Run(init), addr), Decode(a.data).value, a.env);
      }
    }
  }

  /** Sizes one client asked for, of all its requests that parse, in order. */
  function Requests(arrivals: seq<Arrival>, addr: Addr): seq<u64> {
    if arrivals == [] then []
    else
      var a := arrivals[|arrivals| - 1];
      var before := Requests(arrivals[..|arrivals| - 1], addr);
      if a.addr != addr || Decode(a.data).None? then before
      else
        match RequestedSize(Decode(a.data).value.payload)
        case Some(size) => before + [size]
        case None => before
  }

  predicate IsDownloadRequest(a: Arrival, addr: Addr) {
    a.addr == addr && Decode(a.data).Some? && DOWNLOAD <= Decode(a.data).value.payload
  }

  lemma SizeAfter(s: Session, payload: bytes)
    ensures ReadCommand(s, payload).downloadPayloadSize
         == if RequestedSize(payload).Some? then RequestedSize(payload).value else s.downloadPayloadSize
  {
    hide ParseUsize;
    assert DOWNLOAD_COLON[..|DOWNLOAD|] == DOWNLOAD;
    if DOWNLOAD_COLON <= payload {
      assert payload[..|DOWNLOAD|] == payload[..|DOWNLOAD_COLON|][..|DOWNLOAD|];
    }
  }

  /** After any run a client's download size is the last one that parsed among its own
      requests, and 1024 only if none did; it is in download mode exactly when one of its
      datagrams was a request. */
  lemma {:induction false} DownloadStateOfRun(arrivals: seq<Arrival>, addr: Addr)
    ensures var s, sizes := SessionOf(Run(arrivals), addr), Requests(arrivals, addr);
      && s.downloadPayloadSize == (if sizes == [] then 1024 else sizes[|sizes| - 1])
      && (s.downloadMode <==> exists i :: 0 <= i < |arrivals| && IsDownloadRequest(arrivals[i], addr))
  {
    hide Handle, Decode, Numbered, FollowsEnv, PlainFrom, RequestedSize, ReadCommand;
    if arrivals != [] {
      var n := |arrivals| - 1;
      var init, a := arrivals[..n], arrivals[n];
      DownloadStateOfRun(init, addr);
      assert forall i :: 0 <= i < n ==> arrivals[i] == init[i];
      if a.addr == addr && Decode(a.data).Some? {
        var s, packet := SessionOf(Run(init), addr), Decode(a.data).value;
        HandleOnePacket(s, packet, a.env);
        SizeAfter(s, packet.payload);
      }
    }
  }

  /** An unparsable request answered with another size: whoever asked for `size` bytes and then
      sends a bare "DOWNLOAD" over an error-free socket gets ten times `size` bytes again. */
  lemma UnparsableAnsweredWithOldSize(addr: Addr, h1: Header, h2: Header, size: u64, env: Env)
    requires AllOk(env)
    ensures var first := Arrival(addr, Encode(Packet(h1, DownloadCommand(size))), env);
      var second := Arrival(addr, Encode(Packet(h2, DOWNLOAD)), env);
      && SessionOf(Run([first]), addr).downloadPayloadSize == size
      && TotalSize(HandleDatagram(Run([first]), addr, second.data, env).attempts) == 10 * size
  {
    hide Encode, Decode, Handle, Burst, ReadCommand;
    var p1, p2 := Packet(h1, DownloadCommand(size)), Packet(h2, DOWNLOAD);
    DecodeEncode(p1);
    DecodeEncode(p2);
    var first := Arrival(addr, Encode(p1), env);
    assert [first][..0] == [];
    assert Run([]) == map[];
    assert Run([first]) == HandleDatagram(map[], addr, first.data, env).clients;
    var s1 := Handle(NEW_SESSION, p1, env).session;
    DownloadAnswered(NEW_SESSION, h1, size, env);
    BareRequest(s1, h2, env);
  }

  lemma BareRequest(s: Session, h: Header, env: Env)
    requires AllOk(env)
    ensures TotalSize(Handle(s, Packet(h, DOWNLOAD), env).attempts) == 10 * s.downloadPayloadSize
  {
    hide Emit, Burst, ReadCommand;
    var t := Account(ReadCommand(s, DOWNLOAD), Packet(h, DOWNLOAD));
    assert RequestedSize(DOWNLOAD).None?;
    UnparsableKeepsSize(s, DOWNLOAD);
    var p := Emit(Progress(t, []), h.packetNumber, h.timestamp, [], env);
    AckHasNoPayload(t, h, env);
    BurstExact(p, s.downloadPayloadSize, ROUNDS, env, 1);
  }

  lemma AckHasNoPayload(t: Session, h: Header, env: Env)
    ensures var p := Emit(Progress(t, []), h.packetNumber, h.timestamp, [], env);
      |p.attempts| == 1 && TotalSize(p.attempts) == 0
  {
    hide Emit, Decode, SizeOf;
    EmitDecodes(Progress(t, []), h.packetNumber, h.timestamp, [], env);
    assert Emit(Progress(t, []), h.packetNumber, h.timestamp, [], env).attempts[..0] == [];
  }
}
