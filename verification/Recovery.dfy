/** Loss recovery (protocol.rs): the queue of packets in flight and what one ACK does to it. */
module Recovery {
  import opened Numbers

  const LOSS_THRESHOLD := 3

  /** One second, in microseconds. */
  const LOSS_TIMEOUT := 1_000_000

  datatype InFlight = InFlight(packetNumber: u64, sentTime: u64, size: nat, data: bytes, retransmitted: bool)

  datatype State = State(inFlight: seq<InFlight>, largestAcked: u64)

  const EMPTY_QUEUE := State([], 0)

  // ---------------------------------------------------------------- one packet

  datatype Verdict = Acked | Lost | Kept

  /** Age of a packet as the program computes it: a send time after the clock wraps to a
      huge age. */
  function Age(p: InFlight, now: u64): u64 {
    WrappingSub(now, p.sentTime)
  }

  predicate TimedOut(p: InFlight, now: u64) {
    Age(p, now) > LOSS_TIMEOUT
  }

  /** The decision taken for one packet, given the number in the ACK, the largest
      number acknowledged so far (this ACK included) and the clock. */
  function Judge(p: InFlight, ack: u64, largest: u64, now: u64): Verdict {
    if p.packetNumber <= ack then Acked
    else if largest - p.packetNumber >= LOSS_THRESHOLD || TimedOut(p, now) then Lost
    else Kept
  }

  /** The packets of `q` that get verdict `v`, in queue order. */
  function Select(q: seq<InFlight>, v: Verdict, ack: u64, largest: u64, now: u64): (r: seq<InFlight>)
    ensures |r| <= |q|
  {
    if q == [] then []
    else
      var init := Select(q[..|q| - 1], v, ack, largest, now);
      if Judge(q[|q| - 1], ack, largest, now) == v then init + [q[|q| - 1]] else init
  }

  lemma {:induction false} SelectMembers(q: seq<InFlight>, v: Verdict, ack: u64, largest: u64, now: u64)
    ensures forall p :: p in Select(q, v, ack, largest, now) <==> p in q && Judge(p, ack, largest, now) == v
  {
    if q != [] {
      SelectMembers(q[..|q| - 1], v, ack, largest, now);
      assert q == q[..|q| - 1] + [q[|q| - 1]];
    }
  }

  lemma {:induction false} SelectAll(q: seq<InFlight>, v: Verdict, ack: u64, largest: u64, now: u64)
    requires forall i :: 0 <= i < |q| ==> Judge(q[i], ack, largest, now) == v
    ensures Select(q, v, ack, largest, now) == q
  {
    if q != [] {
      SelectAll(q[..|q| - 1], v, ack, largest, now);
    }
  }

  lemma {:induction false} SelectNone(q: seq<InFlight>, v: Verdict, ack: u64, largest: u64, now: u64)
    requires forall i :: 0 <= i < |q| ==> Judge(q[i], ack, largest, now) != v
    ensures Select(q, v, ack, largest, now) == []
  {
    if q != [] {
      SelectNone(q[..|q| - 1], v, ack, largest, now);
    }
  }

  // ---------------------------------------------------------------- the whole ACK

  datatype AckOutcome = AckOutcome(acked: seq<InFlight>, lost: seq<InFlight>, state: State)

  function OnAck(s: State, ack: u64, now: u64): AckOutcome {
    var largest := Max(s.largestAcked, ack);
    AckOutcome(Select(s.inFlight, Acked, ack, largest, now),
               Select(s.inFlight, Lost, ack, largest, now),
               State(Select(s.inFlight, Kept, ack, largest, now), largest))
  }

  function OnSent(s: State, p: InFlight): State {
    s.(inFlight := s.inFlight + [p])
  }

  /** In any state and for any ACK, the three results are a partition of the old queue:
      every packet goes to exactly one of them, as often as it was queued. */
  lemma {:induction false} SelectPartitions(q: seq<InFlight>, ack: u64, largest: u64, now: u64)
    ensures multiset(Select(q, Acked, ack, largest, now)) + multiset(Select(q, Lost, ack, largest, now))
         + multiset(Select(q, Kept, ack, largest, now)) == multiset(q)
  {
    if q != [] {
      hide Judge;
      var init, p := q[..|q| - 1], q[|q| - 1];
      SelectPartitions(init, ack, largest, now);
      assert q == init + [p];
      AddOne(multiset(Select(init, Acked, ack, largest, now)), multiset(Select(init, Lost, ack, largest, now)),
             multiset(Select(init, Kept, ack, largest, now)), p);
    }
  }

  lemma AddOne<T>(a: multiset<T>, l: multiset<T>, k: multiset<T>, x: T)
    ensures (a + l + k) + multiset{x} == (a + multiset{x}) + l + k
    ensures (a + l + k) + multiset{x} == a + (l + multiset{x}) + k
    ensures (a + l + k) + multiset{x} == a + l + (k + multiset{x})
  {
  }

  /** The exact three-way rule of an ACK, in any state and at any clock reading: by number
      first, then by the distance to the largest acknowledged number or by age. A packet
      stamped after the reading is lost too, since its age wraps, unless the stamp is within
      a second of 2^64 microseconds ahead. */
  lemma AckSplitsAnyQueue(s: State, ack: u64, now: u64)
    ensures var o := OnAck(s, ack, now);
      && multiset(o.acked) + multiset(o.lost) + multiset(o.state.inFlight) == multiset(s.inFlight)
      && (forall p :: p in o.acked <==> p in s.inFlight && p.packetNumber <= ack)
      && (forall p :: p in o.lost <==>
            && p in s.inFlight
            && p.packetNumber > ack
            && (p.packetNumber + 3 <= Max(s.largestAcked, ack)
                || now > p.sentTime + 1_000_000
                || now < p.sentTime < now + U64_LIMIT - 1_000_000))
      && (forall p :: p in o.state.inFlight ==> !TimedOut(p, now))
      && o.state.largestAcked >= s.largestAcked && o.state.largestAcked >= ack
  {
    var largest := Max(s.largestAcked, ack);
    SelectPartitions(s.inFlight, ack, largest, now);
    SelectMembers(s.inFlight, Acked, ack, largest, now);
    SelectMembers(s.inFlight, Lost, ack, largest, now);
    SelectMembers(s.inFlight, Kept, ack, largest, now);
  }

  /** The timeout to the microsecond, in every ordered state: a packet newer than the ACK is
      kept at an age of exactly one second and lost one microsecond later. */
  lemma TimeoutIsOneSecond(s: State, p: InFlight, ack: u64)
    requires Ordered(s) && p in s.inFlight && p.packetNumber > ack && p.sentTime + 1_000_001 < U64_LIMIT
    ensures p in OnAck(s, ack, p.sentTime + 1_000_000).state.inFlight
    ensures p in OnAck(s, ack, p.sentTime + 1_000_001).lost
  {
    var largest := Max(s.largestAcked, ack);
    var i :| 0 <= i < |s.inFlight| && s.inFlight[i] == p;
    SelectMembers(s.inFlight, Kept, ack, largest, p.sentTime + 1_000_000);
    SelectMembers(s.inFlight, Lost, ack, largest, p.sentTime + 1_000_001);
  }

  predicate AtMost(q: seq<InFlight>, m: u64) {
    forall i :: 0 <= i < |q| ==> q[i].packetNumber <= m
  }

  predicate Above(q: seq<InFlight>, m: u64) {
    forall i :: 0 <= i < |q| ==> q[i].packetNumber > m
  }

  lemma AckSplitsByNumber(s: State, ack: u64, now: u64)
    ensures AtMost(OnAck(s, ack, now).acked, ack)
    ensures Above(OnAck(s, ack, now).state.inFlight, ack)
  {
    AckSplitsAnyQueue(s, ack, now);
    SelectMembers(s.inFlight, Kept, ack, Max(s.largestAcked, ack), now);
    var o := OnAck(s, ack, now);
    assert forall i :: 0 <= i < |o.acked| ==> o.acked[i] in o.acked;
    assert forall i :: 0 <= i < |o.state.inFlight| ==> o.state.inFlight[i] in o.state.inFlight;
  }

  // ---------------------------------------------------------------- reachable queues

  ghost predicate Increasing(q: seq<InFlight>) {
    forall i, j :: 0 <= i < j < |q| ==> q[i].packetNumber < q[j].packetNumber
  }

  /** What honest numbering keeps, whatever the clock says: numbers strictly increase along
      the queue and exceed everything acknowledged. */
  ghost predicate Ordered(s: State) {
    && Increasing(s.inFlight)
    && (forall i :: 0 <= i < |s.inFlight| ==> s.largestAcked < s.inFlight[i].packetNumber)
  }

  /** What a clock that does not run backwards keeps: send times never decrease along the
      queue. */
  ghost predicate Stamped(q: seq<InFlight>) {
    forall i, j :: 0 <= i < j < |q| ==> q[i].sentTime <= q[j].sentTime
  }

  /** `a`, `l` and `k` are consecutive pieces of `q`. */
  ghost predicate Cut(q: seq<InFlight>, a: seq<InFlight>, l: seq<InFlight>, k: seq<InFlight>) {
    && |a| + |l| + |k| == |q|
    && (forall i :: 0 <= i < |a| ==> a[i] == q[i])
    && (forall i :: 0 <= i < |l| ==> l[i] == q[|a| + i])
    && (forall i :: 0 <= i < |k| ==> k[i] == q[|a| + |l| + i])
  }

  /** Adding a packet at the end extends the last non-empty piece. */
  lemma ExtendCut(q: seq<InFlight>, p: InFlight, a: seq<InFlight>, l: seq<InFlight>, k: seq<InFlight>)
    requires Cut(q, a, l, k)
    ensures Cut(q + [p], a, l, k + [p])
    ensures k == [] ==> Cut(q + [p], a, l + [p], k)
    ensures k == [] && l == [] ==> Cut(q + [p], a + [p], l, k)
  {
  }

  lemma CutIsConcatenation(q: seq<InFlight>, a: seq<InFlight>, l: seq<InFlight>, k: seq<InFlight>)
    requires Cut(q, a, l, k)
    ensures a + l + k == q
    ensures k == q[|a| + |l|..]
  {
  }

  /** Everything in flight was stamped at or before the clock reading. */
  ghost predicate Past(q: seq<InFlight>, now: u64) {
    forall i :: 0 <= i < |q| ==> q[i].sentTime <= now
  }

  /** Among the packets newer than the ACK, none that timed out follows one that did not. */
  ghost predicate AgesInOrder(q: seq<InFlight>, ack: u64, now: u64) {
    forall i, j :: 0 <= i < j < |q| && q[i].packetNumber > ack && TimedOut(q[j], now) ==> TimedOut(q[i], now)
  }

  lemma PastInOrder(q: seq<InFlight>, ack: u64, now: u64)
    requires Stamped(q) && Past(q, now)
    ensures AgesInOrder(q, ack, now)
  {
  }

  /** Later packets are never judged more favourably: nothing before an acknowledged
      packet is kept or lost, and nothing before a lost packet is kept. */
  lemma NoneBefore(q: seq<InFlight>, n: nat, ack: u64, largest: u64, now: u64)
    requires Increasing(q) && AgesInOrder(q, ack, now) && n < |q|
    requires forall i :: 0 <= i < |q| ==> largest - q[i].packetNumber < LOSS_THRESHOLD || q[i].packetNumber <= ack
    ensures Judge(q[n], ack, largest, now).Acked? ==> Select(q[..n], Lost, ack, largest, now) == []
    ensures !Judge(q[n], ack, largest, now).Kept? ==> Select(q[..n], Kept, ack, largest, now) == []
  {
    if Judge(q[n], ack, largest, now).Acked? {
      SelectNone(q[..n], Lost, ack, largest, now);
    }
    if !Judge(q[n], ack, largest, now).Kept? {
      SelectNone(q[..n], Kept, ack, largest, now);
    }
  }

  lemma SelectStep(q: seq<InFlight>, p: InFlight, v: Verdict, ack: u64, largest: u64, now: u64)
    ensures Select(q + [p], v, ack, largest, now)
         == if Judge(p, ack, largest, now) == v
             then Select(q, v, ack, largest, now) + [p] else Select(q, v, ack, largest, now)
  {
    assert (q + [p])[..|q|] == q;
  }

  ghost predicate SelectCuts(q: seq<InFlight>, ack: u64, largest: u64, now: u64) {
    Cut(q, Select(q, Acked, ack, largest, now), Select(q, Lost, ack, largest, now), Select(q, Kept, ack, largest, now))
  }

  lemma SelectCutsStep(q: seq<InFlight>, p: InFlight, ack: u64, largest: u64, now: u64)
    requires SelectCuts(q, ack, largest, now)
    requires Judge(p, ack, largest, now).Acked? ==> Select(q, Lost, ack, largest, now) == []
    requires !Judge(p, ack, largest, now).Kept? ==> Select(q, Kept, ack, largest, now) == []
    ensures SelectCuts(q + [p], ack, largest, now)
  {
    SelectStep(q, p, Acked, ack, largest, now);
    SelectStep(q, p, Lost, ack, largest, now);
    SelectStep(q, p, Kept, ack, largest, now);
    ExtendCut(q, p, Select(q, Acked, ack, largest, now), Select(q, Lost, ack, largest, now),
              Select(q, Kept, ack, largest, now));
  }

  /** Along an increasing queue the verdicts run Acked, then Lost, then Kept. */
  lemma {:induction false} SelectIncreasing(q: seq<InFlight>, n: nat, ack: u64, largest: u64, now: u64)
    requires Increasing(q) && AgesInOrder(q, ack, now) && n <= |q|
    requires forall i :: 0 <= i < |q| ==> largest - q[i].packetNumber < LOSS_THRESHOLD || q[i].packetNumber <= ack
    ensures SelectCuts(q[..n], ack, largest, now)
  {
    hide Select;
    if n > 0 {
      SelectIncreasing(q, n - 1, ack, largest, now);
      NoneBefore(q, n - 1, ack, largest, now);
      SelectCutsStep(q[..n - 1], q[n - 1], ack, largest, now);
      assert q[..n - 1] + [q[n - 1]] == q[..n];
    }
  }

  lemma AckCuts(s: State, ack: u64, now: u64)
    requires Ordered(s) && AgesInOrder(s.inFlight, ack, now)
    ensures var o := OnAck(s, ack, now);
      && Cut(s.inFlight, o.acked, o.lost, o.state.inFlight)
      && o.acked + o.lost + o.state.inFlight == s.inFlight
  {
    hide Select, AgesInOrder;
    var o := OnAck(s, ack, now);
    SelectIncreasing(s.inFlight, |s.inFlight|, ack, o.state.largestAcked, now);
    assert s.inFlight[..|s.inFlight|] == s.inFlight;
    CutIsConcatenation(s.inFlight, o.acked, o.lost, o.state.inFlight);
  }

  lemma IncreasingInit(q: seq<InFlight>)
    requires Increasing(q) && q != []
    ensures Increasing(q[..|q| - 1]) && forall p :: p in q[..|q| - 1] ==> p.packetNumber < q[|q| - 1].packetNumber
  {
  }

  lemma IncreasingAppend(r: seq<InFlight>, last: InFlight)
    requires Increasing(r) && forall p :: p in r ==> p.packetNumber < last.packetNumber
    ensures Increasing(r + [last])
  {
    assert forall i :: 0 <= i < |r| ==> r[i] in r;
  }

  lemma {:induction false} SelectKeepsIncreasing(q: seq<InFlight>, v: Verdict, ack: u64, largest: u64, now: u64)
    requires Increasing(q)
    ensures Increasing(Select(q, v, ack, largest, now))
  {
    hide Increasing, Judge;
    if q == [] {
      EmptyOrders();
    } else {
      var init := q[..|q| - 1];
      IncreasingInit(q);
      SelectKeepsIncreasing(init, v, ack, largest, now);
      SelectMembers(init, v, ack, largest, now);
      if Judge(q[|q| - 1], ack, largest, now) == v {
        IncreasingAppend(Select(init, v, ack, largest, now), q[|q| - 1]);
      }
    }
  }

  lemma StampedInit(q: seq<InFlight>)
    requires Stamped(q) && q != []
    ensures Stamped(q[..|q| - 1]) && forall p :: p in q[..|q| - 1] ==> p.sentTime <= q[|q| - 1].sentTime
  {
  }

  lemma StampedAppend(r: seq<InFlight>, last: InFlight)
    requires Stamped(r) && forall p :: p in r ==> p.sentTime <= last.sentTime
    ensures Stamped(r + [last])
  {
    assert forall i :: 0 <= i < |r| ==> r[i] in r;
  }

  lemma {:induction false} SelectKeepsStamped(q: seq<InFlight>, v: Verdict, ack: u64, largest: u64, now: u64)
    requires Stamped(q)
    ensures Stamped(Select(q, v, ack, largest, now))
  {
    hide Stamped, Judge;
    if q == [] {
      EmptyOrders();
    } else {
      var init := q[..|q| - 1];
      StampedInit(q);
      SelectKeepsStamped(init, v, ack, largest, now);
      SelectMembers(init, v, ack, largest, now);
      if Judge(q[|q| - 1], ack, largest, now) == v {
        StampedAppend(Select(init, v, ack, largest, now), q[|q| - 1]);
      }
    }
  }

  lemma EmptyOrders()
    ensures Increasing([]) && Stamped([])
  {
  }

  /** Whatever the clock says, an ACK leaves an ordered state ordered. */
  lemma AckKeepsOrder(s: State, ack: u64, now: u64)
    requires Ordered(s)
    ensures Ordered(OnAck(s, ack, now).state)
  {
    hide Select, TimedOut;
    var largest := Max(s.largestAcked, ack);
    var kept := OnAck(s, ack, now).state.inFlight;
    SelectKeepsIncreasing(s.inFlight, Kept, ack, largest, now);
    SelectMembers(s.inFlight, Kept, ack, largest, now);
    forall i | 0 <= i < |kept|
      ensures largest < kept[i].packetNumber
    {
      assert kept[i] in kept;
      var j :| 0 <= j < |s.inFlight| && s.inFlight[j] == kept[i];
    }
  }

  /** In an ordered state the reordering threshold plays no part: a packet is lost exactly
      when it is newer than the ACK and timed out. What is left is again ordered. The three
      results are consecutive pieces of the queue if and only if the ages are in order,
      which they are whenever the clock has not stepped back. */
  lemma AckCutsOrderedQueue(s: State, ack: u64, now: u64)
    requires Ordered(s)
    ensures var o := OnAck(s, ack, now);
      && (forall p :: p in o.lost <==> p in s.inFlight && p.packetNumber > ack && TimedOut(p, now))
      && Ordered(o.state)
      && (o.acked + o.lost + o.state.inFlight == s.inFlight <==> AgesInOrder(s.inFlight, ack, now))
      && (Stamped(s.inFlight) && Past(s.inFlight, now) ==> AgesInOrder(s.inFlight, ack, now))
  {
    hide Select;
    var o := OnAck(s, ack, now);
    AckSplitsAnyQueue(s, ack, now);
    AckKeepsOrder(s, ack, now);
    OrderedLoss(s, ack, now);
    if Stamped(s.inFlight) && Past(s.inFlight, now) {
      PastInOrder(s.inFlight, ack, now);
    }
    if AgesInOrder(s.inFlight, ack, now) {
      AckCuts(s, ack, now);
    }
    if o.acked + o.lost + o.state.inFlight == s.inFlight {
      CutHasAgesInOrder(s, ack, now);
    }
  }

  lemma OrderedLoss(s: State, ack: u64, now: u64)
    requires Ordered(s)
    ensures forall p :: p in OnAck(s, ack, now).lost <==> p in s.inFlight && p.packetNumber > ack && TimedOut(p, now)
  {
    SelectMembers(s.inFlight, Lost, ack, Max(s.largestAcked, ack), now);
  }

  lemma CutHasAgesInOrder(s: State, ack: u64, now: u64)
    requires Ordered(s)
    requires var o := OnAck(s, ack, now); o.acked + o.lost + o.state.inFlight == s.inFlight
    ensures AgesInOrder(s.inFlight, ack, now)
  {
    hide OnAck, TimedOut;
    var o, q := OnAck(s, ack, now), s.inFlight;
    AckSplitsAnyQueue(s, ack, now);
    OrderedLoss(s, ack, now);
    var d := |o.acked| + |o.lost|;
    forall k | d <= k < |q|
      ensures !TimedOut(q[k], now)
    {
      assert q[k] == o.state.inFlight[k - d];
    }
    forall k | 0 <= k < d
      ensures q[k].packetNumber <= ack || TimedOut(q[k], now)
    {
      assert q[k] == if k < |o.acked| then o.acked[k] else o.lost[k - |o.acked|];
      assert q[k] in o.acked || q[k] in o.lost;
    }
  }

  lemma SelectTwo(p: InFlight, q: InFlight, v: Verdict, ack: u64, largest: u64, now: u64)
    ensures Select([p, q], v, ack, largest, now)
         == (if Judge(p, ack, largest, now) == v then [p] else [])
          + (if Judge(q, ack, largest, now) == v then [q] else [])
  {
    hide Judge;
    assert [] + [p] == [p] && [p] + [q] == [p, q];
    SelectStep([], p, v, ack, largest, now);
    SelectStep([p], q, v, ack, largest, now);
  }

  /** Why the clock matters: in an ordered state, at a reading between two send times, the
      packet already sent is kept and the later one, stamped in the future, is lost. */
  lemma SteppedBackClockBreaksOrder(d: bytes)
    ensures var early, late := InFlight(1, 1_000_000, |d|, d, false), InFlight(2, 3_000_000, |d|, d, false);
      var s := State([early, late], 0); var o := OnAck(s, 0, 1_500_000);
      && Ordered(s) && Stamped(s.inFlight) && !AgesInOrder(s.inFlight, 0, 1_500_000)
      && o.acked == [] && o.lost == [late] && o.state.inFlight == [early]
  {
    hide Select;
    var early, late := InFlight(1, 1_000_000, |d|, d, false), InFlight(2, 3_000_000, |d|, d, false);
    SelectTwo(early, late, Acked, 0, 0, 1_500_000);
    SelectTwo(early, late, Lost, 0, 0, 1_500_000);
    SelectTwo(early, late, Kept, 0, 0, 1_500_000);
    var q := [early, late];
    assert q[0] == early && q[1] == late;
  }

  /** An ACK that names nothing newer than what is acknowledged already removes nothing
      as acknowledged. */
  lemma StaleAckAcknowledgesNothing(s: State, ack: u64, now: u64)
    requires Ordered(s) && ack <= s.largestAcked
    ensures OnAck(s, ack, now).acked == []
    ensures OnAck(s, ack, now).state.largestAcked == s.largestAcked
  {
    SelectNone(s.inFlight, Acked, ack, s.largestAcked, now);
  }

  /** The documented rule, loss after three higher numbers are acknowledged, is in the
      code, and it fires when the queue is behind the largest acknowledged number ... */
  lemma ThresholdNeedsUnreachableState(s: State, p: InFlight, ack: u64, now: u64)
    requires p in s.inFlight && p.packetNumber > ack && !TimedOut(p, now)
    ensures p in OnAck(s, ack, now).lost <==> s.largestAcked >= p.packetNumber + 3
    ensures Ordered(s) ==> p in OnAck(s, ack, now).state.inFlight
  {
    AckSplitsAnyQueue(s, ack, now);
    SelectMembers(s.inFlight, Kept, ack, Max(s.largestAcked, ack), now);
    if Ordered(s) {
      var i :| 0 <= i < |s.inFlight| && s.inFlight[i] == p;
    }
  }

  /** ... which honest sending never lets happen, so the rule fails as documented: with
      packets 1 to 4 in flight and numbers 2, 3 and 4 acknowledged, packet 1 is not
      declared lost. It is counted as acknowledged. */
  lemma ThreeHigherAcknowledgedIsNotLoss(time: u64, d: bytes)
    ensures var q := seq(4, i requires 0 <= i < 4 => InFlight(i + 1, time, |d|, d, false));
      var o := OnAck(State(q, 0), 4, time);
      Ordered(State(q, 0)) && o.lost == [] && o.acked == q
  {
    var q := seq(4, i requires 0 <= i < 4 => InFlight(i + 1, time, |d|, d, false));
    SelectAll(q, Acked, 4, 4, time);
    SelectNone(q, Lost, 4, 4, time);
  }

  /** An ACK acknowledges no packet other than the one it names exactly when no older
      packet is still in flight. */
  lemma AckIsSelectiveIffFrontIsNamed(s: State, ack: u64, now: u64)
    requires Ordered(s)
    ensures (forall p :: p in OnAck(s, ack, now).acked ==> p.packetNumber == ack)
       <==> (s.inFlight == [] || s.inFlight[0].packetNumber >= ack)
  {
    AckSplitsAnyQueue(s, ack, now);
    if s.inFlight != [] {
      assert s.inFlight[0] in s.inFlight;
    }
  }

  // ---------------------------------------------------------------- order of ACKs

  datatype Ack = Ack(number: u64, now: u64)

  datatype Acks = Acks(acked: seq<InFlight>, lost: seq<InFlight>, state: State)

  /** Handle a list of ACKs one after the other, collecting what each removes. */
  function OnAcks(s: State, acks: seq<Ack>): Acks {
    if acks == [] then Acks([], [], s)
    else
      var before := OnAcks(s, acks[..|acks| - 1]);
      var last := acks[|acks| - 1];
      var o := OnAck(before.state, last.number, last.now);
      Acks(before.acked + o.acked, before.lost + o.lost, o.state)
  }

  function Highest(acks: seq<Ack>): (m: u64)
    ensures forall a :: a in acks ==> a.number <= m
    ensures m == 0 || exists a :: a in acks && a.number == m
  {
    if acks == [] then 0
    else
      assert acks == acks[..|acks| - 1] + [acks[|acks| - 1]];
      Max(Highest(acks[..|acks| - 1]), acks[|acks| - 1].number)
  }

  /** Nothing in flight is timed out, by age or by a clock behind its send time, when any of
      the ACKs is handled. */
  ghost predicate NothingTimedOut(s: State, acks: seq<Ack>) {
    forall p, a :: p in s.inFlight && a in acks ==> !TimedOut(p, a.now)
  }

  lemma NoneOf(q: seq<InFlight>)
    requires forall p :: p !in q
    ensures q == []
  {
    assert forall p :: p in multiset(q) ==> p in q;
    assert multiset(q) == multiset{};
    assert |multiset(q)| == |q|;
  }

  lemma FreshInOrder(s: State, ack: u64, now: u64)
    requires NothingTimedOut(s, [Ack(ack, now)])
    ensures AgesInOrder(s.inFlight, ack, now)
  {
    hide TimedOut;
    assert Ack(ack, now) in [Ack(ack, now)];
    assert forall i :: 0 <= i < |s.inFlight| ==> s.inFlight[i] in s.inFlight;
  }

  lemma AckWithoutTimeouts(s: State, ack: u64, now: u64)
    requires Ordered(s) && NothingTimedOut(s, [Ack(ack, now)])
    ensures var o := OnAck(s, ack, now);
      && o.lost == [] && o.acked + o.state.inFlight == s.inFlight && Ordered(o.state)
      && o.state.largestAcked == Max(s.largestAcked, ack)
  {
    hide Select, TimedOut, Ordered, AgesInOrder;
    AckCutsOrderedQueue(s, ack, now);
    assert AgesInOrder(s.inFlight, ack, now) by { FreshInOrder(s, ack, now); }
    assert Ack(ack, now) in [Ack(ack, now)];
    assert OnAck(s, ack, now).lost == [] by { NoneOf(OnAck(s, ack, now).lost); }
  }

  /** A queue splits into "at most m" followed by "above m" in one way only. */
  lemma SplitUnique(q: seq<InFlight>, m: u64, a1: seq<InFlight>, k1: seq<InFlight>, a2: seq<InFlight>,
      k2: seq<InFlight>)
    requires a1 + k1 == q == a2 + k2
    requires AtMost(a1, m) && AtMost(a2, m) && Above(k1, m) && Above(k2, m)
    ensures a1 == a2 && k1 == k2
  {
    assert forall i :: 0 <= i < |a1| ==> q[i] == a1[i];
    assert forall i :: 0 <= i < |a2| ==> q[i] == a2[i];
    assert |a1| < |q| ==> q[|a1|] == k1[0];
    assert |a2| < |q| ==> q[|a2|] == k2[0];
    assert a1 == q[..|a1|] == a2;
    assert k1 == q[|a1|..] == k2;
  }

  lemma AppendCut(q: seq<InFlight>, a: seq<InFlight>, k: seq<InFlight>, a2: seq<InFlight>, k2: seq<InFlight>)
    requires a + k == q && a2 + k2 == k
    ensures (a + a2) + k2 == q
  {
  }

  lemma {:induction false} AcksSplitByHighest(s: State, acks: seq<Ack>)
    requires Ordered(s) && NothingTimedOut(s, acks)
    ensures var r := OnAcks(s, acks);
      && r.acked + r.state.inFlight == s.inFlight && r.lost == [] && Ordered(r.state)
      && r.state.largestAcked == Max(s.largestAcked, Highest(acks))
      && AtMost(r.acked, Highest(acks)) && Above(r.state.inFlight, Highest(acks))
  {
    hide OnAck;
    if acks != [] {
      var init, last := acks[..|acks| - 1], acks[|acks| - 1];
      assert NothingTimedOut(s, init) by { assert forall a :: a in init ==> a in acks; }
      AcksSplitByHighest(s, init);
      var b := OnAcks(s, init);
      assert NothingTimedOut(b.state, [Ack(last.number, last.now)]) by {
        assert last in acks;
        assert forall p :: p in b.state.inFlight ==> p in s.inFlight;
      }
      AckWithoutTimeouts(b.state, last.number, last.now);
      AckSplitsByNumber(b.state, last.number, last.now);
      var o := OnAck(b.state, last.number, last.now);
      AppendCut(s.inFlight, b.acked, b.state.inFlight, o.acked, o.state.inFlight);
    }
  }

  /** ACK order does not matter: with nothing timed out, any list of ACKs leaves the same
      queue and the same largest number, and acknowledges the same packets in the same
      order, as the highest of them alone. */
  lemma AckOrderIrrelevant(s: State, acks: seq<Ack>, now: u64)
    requires Ordered(s) && NothingTimedOut(s, acks + [Ack(Highest(acks), now)])
    ensures var r, one := OnAcks(s, acks), OnAck(s, Highest(acks), now);
      r.acked == one.acked && r.lost == one.lost == [] && r.state == one.state
  {
    var m := Highest(acks);
    var only := [Ack(m, now)];
    assert forall a :: a in acks || a in only ==> a in acks + only;
    AcksSplitByHighest(s, acks);
    AckWithoutTimeouts(s, m, now);
    AckSplitsByNumber(s, m, now);
    var r, one := OnAcks(s, acks), OnAck(s, m, now);
    SplitUnique(s.inFlight, m, r.acked, r.state.inFlight, one.acked, one.state.inFlight);
  }

  /** Hence two lists with the same members have the same effect, whatever their order. */
  lemma AckPermutation(s: State, xs: seq<Ack>, ys: seq<Ack>)
    requires Ordered(s) && NothingTimedOut(s, xs) && multiset(xs) == multiset(ys)
    ensures OnAcks(s, xs) == OnAcks(s, ys)
  {
    assert forall a :: a in xs <==> a in multiset(xs);
    assert forall a :: a in ys <==> a in multiset(ys);
    var m := Highest(xs);
    assert m == Highest(ys) by {
      if m != 0 { var a :| a in xs && a.number == m; }
      if Highest(ys) != 0 { var a :| a in ys && a.number == Highest(ys); }
    }
    AcksSplitByHighest(s, xs);
    AcksSplitByHighest(s, ys);
    var r, t := OnAcks(s, xs), OnAcks(s, ys);
    SplitUnique(s.inFlight, m, r.acked, r.state.inFlight, t.acked, t.state.inFlight);
  }

  // ---------------------------------------------------------------- the object

  class LossRecovery {
    var inFlight: seq<InFlight>
    var largestAcked: u64
    const lossThreshold: u64 := LOSS_THRESHOLD
    const lossTimeout: u64 := LOSS_TIMEOUT

    ghost function Model(): State
      reads this
    {
      State(inFlight, largestAcked)
    }

    constructor ()
      ensures Model() == EMPTY_QUEUE
    {
      inFlight, largestAcked := [], 0;
    }

    method OnPacketSent(packet: InFlight)
      modifies this
      ensures Model() == OnSent(old(Model()), packet)
    {
      inFlight := inFlight + [packet];
    }

    /** One pass over the queue; the age of a packet wraps when the clock is behind. */
    method OnAckReceived(ackedPacket: u64, now: u64) returns (acked: seq<InFlight>, lost: seq<InFlight>)
      modifies this
      ensures AckOutcome(acked, lost, Model()) == OnAck(old(Model()), ackedPacket, now)
    {
      acked, lost := [], [];
      largestAcked := Max(largestAcked, ackedPacket);
      var kept := [];
      for i := 0 to |inFlight|
        invariant inFlight == old(inFlight) && largestAcked == Max(old(largestAcked), ackedPacket)
        invariant acked == Select(inFlight[..i], Acked, ackedPacket, largestAcked, now)
        invariant lost == Select(inFlight[..i], Lost, ackedPacket, largestAcked, now)
        invariant kept == Select(inFlight[..i], Kept, ackedPacket, largestAcked, now)
      {
        var packet := inFlight[i];
        assert inFlight[..i + 1][..i] == inFlight[..i];
        if packet.packetNumber <= ackedPacket {
          acked := acked + [packet];
        } else {
          var higherAcked := if largestAcked >= packet.packetNumber then largestAcked - packet.packetNumber else 0;
          var timedOut := WrappingSub(now, packet.sentTime) > lossTimeout;
          if higherAcked >= lossThreshold || timedOut {
            lost := lost + [packet];
          } else {
            kept := kept + [packet];
          }
        }
      }
      assert inFlight[..|inFlight|] == inFlight;
      inFlight := kept;
    }
  }
}
