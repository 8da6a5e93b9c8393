/** Latency statistics (latency.rs). Measured values are reals; the square root behind
    `jitter` is characterised, not computed. */
module Latency {
  import opened Numbers

  datatype Measurement = Measurement(rttMs: Option<real>, elapsed: real)

  /** The values of the successful measurements, in order. */
  function Rtts(ms: seq<Measurement>): seq<real> {
    if ms == [] then []
    else
      var before := Rtts(ms[..|ms| - 1]);
      match ms[|ms| - 1].rttMs
      case Some(rtt) => before + [rtt]
      case None => before
  }

  function SuccessfulCount(ms: seq<Measurement>): nat {
    if ms == [] then 0 else SuccessfulCount(ms[..|ms| - 1]) + if ms[|ms| - 1].rttMs.Some? then 1 else 0
  }

  function DroppedCount(ms: seq<Measurement>): nat {
    if ms == [] then 0 else DroppedCount(ms[..|ms| - 1]) + if ms[|ms| - 1].rttMs.None? then 1 else 0
  }

  /** Every measurement is counted once, and the successful ones are the values. */
  lemma {:induction false} CountsAddUp(ms: seq<Measurement>)
    ensures SuccessfulCount(ms) + DroppedCount(ms) == |ms|
    ensures SuccessfulCount(ms) == |Rtts(ms)|
  {
    if ms != [] {
      CountsAddUp(ms[..|ms| - 1]);
    }
  }

  // ---------------------------------------------------------------- average, minimum, maximum

  function Sum(s: seq<real>): real {
    if s == [] then 0.0 else Sum(s[..|s| - 1]) + s[|s| - 1]
  }

  function Average(s: seq<real>): real
    requires s != []
  {
    Sum(s) / |s| as real
  }

  /** One pass with a running sum and count. */
  method AvgRtt(ms: seq<Measurement>) returns (avg: Option<real>)
    ensures avg == if Rtts(ms) == [] then None else Some(Average(Rtts(ms)))
  {
    var sum, count := 0.0, 0;
    for i := 0 to |ms|
      invariant sum == Sum(Rtts(ms[..i])) && count == |Rtts(ms[..i])|
    {
      assert ms[..i + 1][..i] == ms[..i];
      match ms[i].rttMs {
        case Some(rtt) =>
          assert (Rtts(ms[..i]) + [rtt])[..count] == Rtts(ms[..i]);
          sum := sum + rtt;
          count := count + 1;
        case None =>
      }
    }
    assert ms[..|ms|] == ms;
    avg := if count > 0 then Some(sum / count as real) else None;
  }

  function MinOf(s: seq<real>): (m: real)
    requires s != []
    ensures m in s && forall i :: 0 <= i < |s| ==> m <= s[i]
  {
    if |s| == 1 then s[0]
    else
      var before := MinOf(s[..|s| - 1]);
      if s[|s| - 1] < before then s[|s| - 1] else before
  }

  function MaxOf(s: seq<real>): (m: real)
    requires s != []
    ensures m in s && forall i :: 0 <= i < |s| ==> s[i] <= m
  {
    if |s| == 1 then s[0]
    else
      var before := MaxOf(s[..|s| - 1]);
      if s[|s| - 1] > before then s[|s| - 1] else before
  }

  /** `min_rtt`: nothing when nothing was measured, else the smallest measured value. */
  function MinRtt(ms: seq<Measurement>): (m: Option<real>)
    ensures m.None? <==> forall i :: 0 <= i < |ms| ==> ms[i].rttMs.None?
    ensures m.Some? ==> exists i :: 0 <= i < |ms| && ms[i].rttMs == m
    ensures m.Some? ==> forall i :: 0 <= i < |ms| && ms[i].rttMs.Some? ==> m.value <= ms[i].rttMs.value
  {
    RttsMembers(ms);
    if Rtts(ms) == [] then None else Some(MinOf(Rtts(ms)))
  }

  /** `max_rtt`: nothing when nothing was measured, else the largest measured value. */
  function MaxRtt(ms: seq<Measurement>): (m: Option<real>)
    ensures m.None? <==> forall i :: 0 <= i < |ms| ==> ms[i].rttMs.None?
    ensures m.Some? ==> exists i :: 0 <= i < |ms| && ms[i].rttMs == m
    ensures m.Some? ==> forall i :: 0 <= i < |ms| && ms[i].rttMs.Some? ==> ms[i].rttMs.value <= m.value
  {
    RttsMembers(ms);
    if Rtts(ms) == [] then None else Some(MaxOf(Rtts(ms)))
  }

  lemma {:induction false} RttsMembers(ms: seq<Measurement>)
    ensures forall x :: x in Rtts(ms) <==> exists i :: 0 <= i < |ms| && ms[i].rttMs == Some(x)
    ensures Rtts(ms) == [] <==> forall i :: 0 <= i < |ms| ==> ms[i].rttMs.None?
  {
    if ms != [] {
      var n := |ms| - 1;
      RttsMembers(ms[..n]);
      assert forall i :: 0 <= i < n ==> ms[i] == ms[..n][i];
    }
  }

  lemma {:induction false} SumWithin(s: seq<real>, low: real, high: real)
    requires forall i :: 0 <= i < |s| ==> low <= s[i] <= high
    ensures |s| as real * low <= Sum(s) <= |s| as real * high
  {
    if s != [] {
      var n := |s| - 1;
      SumWithin(s[..n], low, high);
      assert |s| as real * low == n as real * low + low;
      assert |s| as real * high == n as real * high + high;
    }
  }

  lemma DivideBounds(total: real, n: real, low: real, high: real)
    requires n > 0.0 && n * low <= total <= n * high
    ensures low <= total / n <= high
  {
    var q := total / n;
    assert q * n == total;
    assert n * (q - low) >= 0.0 && n * (high - q) >= 0.0;
  }

  /** min <= average <= max. */
  lemma AverageWithin(s: seq<real>)
    requires s != []
    ensures MinOf(s) <= Average(s) <= MaxOf(s)
  {
    SumWithin(s, MinOf(s), MaxOf(s));
    DivideBounds(Sum(s), |s| as real, MinOf(s), MaxOf(s));
  }

  // ---------------------------------------------------------------- variance

  function SquaredDeviations(s: seq<real>, c: real): real {
    if s == [] then 0.0
    else SquaredDeviations(s[..|s| - 1], c) + (s[|s| - 1] - c) * (s[|s| - 1] - c)
  }

  /** The quantity under the square root in `jitter`. */
  function Variance(s: seq<real>): real
    requires s != []
  {
    SquaredDeviations(s, Average(s)) / |s| as real
  }

  function SumOfSquares(s: seq<real>): real {
    if s == [] then 0.0 else SumOfSquares(s[..|s| - 1]) + s[|s| - 1] * s[|s| - 1]
  }

  lemma {:induction false} DeviationsExpand(s: seq<real>, c: real)
    ensures SquaredDeviations(s, c) == SumOfSquares(s) - 2.0 * (c * Sum(s)) + |s| as real * (c * c)
  {
    if s == [] {
      assert c * 0.0 == 0.0 && 0.0 * (c * c) == 0.0;
    } else {
      hide SquaredDeviations, SumOfSquares, Sum;
      var n, x := |s| - 1, s[|s| - 1];
      DeviationsExpand(s[..n], c);
      ExpandStep(SquaredDeviations(s[..n], c), SumOfSquares(s[..n]), Sum(s[..n]), n as real, x, c);
      LastTerms(s, c);
      assert |s| as real == n as real + 1.0;
    }
  }

  lemma LastTerms(s: seq<real>, c: real)
    requires s != []
    ensures var init, x := s[..|s| - 1], s[|s| - 1];
      && SquaredDeviations(s, c) == SquaredDeviations(init, c) + (x - c) * (x - c)
      && SumOfSquares(s) == SumOfSquares(init) + x * x
      && Sum(s) == Sum(init) + x
  {
  }

  lemma ExpandStep(deviations: real, squares: real, total: real, n: real, x: real, c: real)
    requires deviations == squares - 2.0 * (c * total) + n * (c * c)
    ensures deviations + (x - c) * (x - c) == (squares + x * x) - 2.0 * (c * (total + x)) + (n + 1.0) * (c * c)
  {
    ExpandOne(x, c, total, n, c * c);
  }

  lemma ExpandOne(x: real, c: real, total: real, n: real, square: real)
    requires square == c * c
    ensures (x - c) * (x - c) == x * x - 2.0 * (c * x) + square
    ensures c * (total + x) == c * total + c * x
    ensures (n + 1.0) * square == n * square + square
  {
  }

  /** The variance exactly: the sum of squares less n times the squared average, over n. */
  lemma VarianceExact(s: seq<real>)
    requires s != []
    ensures |s| as real * Variance(s) == SumOfSquares(s) - |s| as real * (Average(s) * Average(s))
  {
    hide SquaredDeviations, Sum, SumOfSquares, Average;
    var n, c := |s| as real, Average(s);
    DeviationsExpand(s, c);
    SumFromAverage(s);
    QuotientTimes(SquaredDeviations(s, c), n);
    Reassociate(n, c, Sum(s));
  }

  lemma Reassociate(n: real, c: real, total: real)
    requires total - n * c == 0.0
    ensures c * total == n * (c * c)
  {
    assert c * total == c * (n * c);
  }

  lemma OneDeviation(x: real, c: real, low: real, high: real)
    requires low <= x <= high
    ensures (x - c) * (x - c) <= (high - c) * (c - low) + (x - c) * (high + low - 2.0 * c)
  {
    var y, h, l := x - c, high - c, low - c;
    assert (h - y) * (y - l) >= 0.0;
    assert (h - y) * (y - l) == y * (h + l) - h * l - y * y;
    assert (high - c) * (c - low) == -(h * l);
    assert (x - c) * (high + low - 2.0 * c) == y * (h + l);
  }

  lemma AddDeviation(n: real, a: real, b: real, total: real, x: real, c: real)
    ensures (n + 1.0) * a + b * (total + x - (n + 1.0) * c) == (n * a + b * (total - n * c)) + (a + (x - c) * b)
  {
    assert total + x - (n + 1.0) * c == (total - n * c) + (x - c);
    assert b * ((total - n * c) + (x - c)) == b * (total - n * c) + b * (x - c);
  }

  lemma {:induction false} DeviationsBound(s: seq<real>, c: real, low: real, high: real)
    requires forall i :: 0 <= i < |s| ==> low <= s[i] <= high
    ensures SquaredDeviations(s, c)
         <= |s| as real * ((high - c) * (c - low)) + (high + low - 2.0 * c) * (Sum(s) - |s| as real * c)
  {
    var a, b := (high - c) * (c - low), high + low - 2.0 * c;
    if s == [] {
      ZeroTerms(a, b, c);
    } else {
      var n, x := |s| - 1, s[|s| - 1];
      DeviationsBound(s[..n], c, low, high);
      OneDeviation(x, c, low, high);
      AddDeviation(n as real, a, b, Sum(s[..n]), x, c);
      assert |s| as real == n as real + 1.0;
    }
  }

  lemma ZeroTerms(a: real, b: real, c: real)
    ensures 0.0 * a + b * (0.0 - 0.0 * c) == 0.0
  {
  }

  /** The variance is at most (max - avg) * (avg - min). */
  lemma VarianceBound(s: seq<real>)
    requires s != []
    ensures Variance(s) <= (MaxOf(s) - Average(s)) * (Average(s) - MinOf(s))
  {
    hide MinOf, MaxOf, SquaredDeviations, Sum, Average;
    var c, low, high := Average(s), MinOf(s), MaxOf(s);
    DeviationsBound(s, c, low, high);
    SumFromAverage(s);
    ReduceBound(SquaredDeviations(s, c), |s| as real, (high - c) * (c - low),
                high + low - 2.0 * c, Sum(s) - |s| as real * c);
  }

  lemma ReduceBound(x: real, n: real, a: real, b: real, z: real)
    requires n > 0.0 && z == 0.0 && x <= n * a + b * z
    ensures x / n <= a
  {
    DivideUpper(x, n, a);
  }

  lemma SumFromAverage(s: seq<real>)
    requires s != []
    ensures Sum(s) - |s| as real * Average(s) == 0.0
  {
    QuotientTimes(Sum(s), |s| as real);
  }

  lemma QuotientTimes(x: real, n: real)
    requires n != 0.0
    ensures n * (x / n) == x
  {
  }

  lemma DivideUpper(x: real, n: real, bound: real)
    requires n > 0.0 && x <= n * bound
    ensures x / n <= bound
  {
    assert n * (bound - x / n) == n * bound - x;
  }

  lemma ProductOfParts(u: real, v: real)
    ensures u * v <= ((u + v) / 2.0) * ((u + v) / 2.0)
  {
    assert ((u + v) / 2.0) * ((u + v) / 2.0) - u * v == ((u - v) / 2.0) * ((u - v) / 2.0);
  }

  /** `j` is the non-negative square root the program returns. */
  ghost predicate IsJitter(j: real, s: seq<real>)
    requires s != []
  {
    j >= 0.0 && j * j == Variance(s)
  }

  lemma SquareStrict(x: real, y: real)
    requires x > y >= 0.0
    ensures x * x > y * y
  {
    assert x * x - y * y == (x - y) * (x + y);
    assert (x - y) * (x + y) > 0.0 by { PositiveProduct(x - y, x + y); }
  }

  lemma PositiveProduct(u: real, v: real)
    requires u > 0.0 && v > 0.0
    ensures u * v > 0.0
  {
  }

  lemma SquareOrder(x: real, y: real)
    requires x >= 0.0 && y >= 0.0 && x * x <= y * y
    ensures x <= y
  {
    if x > y {
      SquareStrict(x, y);
    }
  }

  /** Jitter never exceeds half the range of the measurements. */
  lemma JitterBound(j: real, s: seq<real>)
    requires s != [] && IsJitter(j, s)
    ensures j <= (MaxOf(s) - MinOf(s)) / 2.0
  {
    hide MinOf, MaxOf, Variance, Average;
    VarianceBound(s);
    AverageWithin(s);
    ProductOfParts(MaxOf(s) - Average(s), Average(s) - MinOf(s));
    SquareOrder(j, (MaxOf(s) - MinOf(s)) / 2.0);
  }

  lemma {:induction false} NoDeviation(s: seq<real>, c: real)
    ensures SquaredDeviations(s, c) >= 0.0
    ensures SquaredDeviations(s, c) == 0.0 <==> forall i :: 0 <= i < |s| ==> s[i] == c
  {
    if s != [] {
      var n := |s| - 1;
      NoDeviation(s[..n], c);
      var square := (s[n] - c) * (s[n] - c);
      SquareSign(s[n] - c, square);
      assert SquaredDeviations(s, c) == SquaredDeviations(s[..n], c) + square;
    }
  }

  lemma SignOfProduct(u: real, v: real, product: real)
    requires u > 0.0 && v > 0.0 && product == u * v
    ensures product > 0.0
  {
  }

  lemma SquareSign(x: real, square: real)
    requires square == x * x
    ensures square >= 0.0
    ensures square == 0.0 <==> x == 0.0
  {
    if x > 0.0 {
      SignOfProduct(x, x, square);
    } else if x < 0.0 {
      var y := 0.0 - x;
      assert square == y * y;
      SignOfProduct(y, y, square);
    } else {
      assert square == 0.0;
    }
  }

  lemma ZeroQuotient(x: real, n: real)
    requires n > 0.0
    ensures x / n == 0.0 <==> x == 0.0
  {
    QuotientTimes(x, n);
  }

  /** Jitter is zero exactly when all measurements are equal. */
  lemma NoJitter(j: real, s: seq<real>)
    requires s != [] && IsJitter(j, s)
    ensures j == 0.0 <==> MinOf(s) == MaxOf(s)
  {
    hide MinOf, MaxOf, SquaredDeviations, Average;
    NoDeviation(s, Average(s));
    ZeroQuotient(SquaredDeviations(s, Average(s)), |s| as real);
    SquareSign(j, Variance(s));
    AllEqualIff(s);
  }

  lemma AllEqualIff(s: seq<real>)
    requires s != []
    ensures (forall i :: 0 <= i < |s| ==> s[i] == Average(s)) <==> MinOf(s) == MaxOf(s)
  {
    hide MinOf, MaxOf, Average;
    AverageWithin(s);
    var i :| 0 <= i < |s| && s[i] == MinOf(s);
    var k :| 0 <= k < |s| && s[k] == MaxOf(s);
  }

  // ---------------------------------------------------------------- percentiles

  ghost predicate IsSorted(s: seq<real>) {
    forall i, j :: 0 <= i < j < |s| ==> s[i] <= s[j]
  }

  function Insert(s: seq<real>, x: real): seq<real> {
    if s == [] then [x]
    else if s[|s| - 1] <= x then s + [x]
    else Insert(s[..|s| - 1], x) + [s[|s| - 1]]
  }

  /** The values in ascending order, as `sort_by` leaves them. */
  function Sort(s: seq<real>): seq<real> {
    if s == [] then [] else Insert(Sort(s[..|s| - 1]), s[|s| - 1])
  }

  lemma {:induction false} InsertUpper(s: seq<real>, x: real, top: real)
    requires x <= top && forall i :: 0 <= i < |s| ==> s[i] <= top
    ensures forall i :: 0 <= i < |Insert(s, x)| ==> Insert(s, x)[i] <= top
  {
    if s != [] && s[|s| - 1] > x {
      InsertUpper(s[..|s| - 1], x, top);
    }
  }

  lemma {:induction false} InsertSorted(s: seq<real>, x: real)
    requires IsSorted(s)
    ensures IsSorted(Insert(s, x))
  {
    if s != [] && s[|s| - 1] > x {
      InsertSorted(s[..|s| - 1], x);
      InsertUpper(s[..|s| - 1], x, s[|s| - 1]);
    }
  }

  lemma {:induction false} InsertMultiset(s: seq<real>, x: real)
    ensures multiset(Insert(s, x)) == multiset(s) + multiset{x}
  {
    if s != [] && s[|s| - 1] > x {
      var init, last := s[..|s| - 1], s[|s| - 1];
      InsertMultiset(init, x);
      assert s == init + [last];
    }
  }

  lemma {:induction false} SortSorts(s: seq<real>)
    ensures IsSorted(Sort(s)) && multiset(Sort(s)) == multiset(s) && |Sort(s)| == |s|
  {
    if s != [] {
      var init, last := s[..|s| - 1], s[|s| - 1];
      SortSorts(init);
      InsertSorted(Sort(init), last);
      InsertMultiset(Sort(init), last);
      assert s == init + [last];
      assert |multiset(Sort(s))| == |multiset(s)|;
    }
  }

  /** `f64::round` on non-negative values: half away from zero. */
  function Round(x: real): int {
    (x + 0.5).Floor
  }

  /** The requested fraction of the way from the first index to the last. */
  function ScaledIndex(n: real, count: nat): real {
    n / 100.0 * (count - 1) as real
  }

  function RankIndex(n: real, count: nat): int {
    Round(ScaledIndex(n, count))
  }

  lemma ScaleWithin(p: real, m: real)
    requires 0.0 <= p <= 1.0 && m >= 0.0
    ensures 0.0 <= p * m <= m
  {
    assert (1.0 - p) * m >= 0.0;
  }

  /** The rank index is in bounds, and the two special cases of the code agree with it. */
  lemma RankInBounds(n: real, count: nat)
    requires 0.0 <= n <= 100.0 && count > 0
    ensures 0 <= RankIndex(n, count) < count
    ensures n == 0.0 ==> RankIndex(n, count) == 0
    ensures n == 100.0 ==> RankIndex(n, count) == count - 1
  {
    ScaleWithin(n / 100.0, (count - 1) as real);
  }

  lemma ScaledMonotone(n1: real, n2: real, count: nat)
    requires n1 <= n2 && count > 0
    ensures ScaledIndex(n1, count) <= ScaledIndex(n2, count)
  {
    var m := (count - 1) as real;
    ScaleBy(n1, m);
    ScaleBy(n2, m);
    assert (n2 - n1) * m >= 0.0;
    assert (n2 - n1) * m == n2 * m - n1 * m;
  }

  lemma ScaleBy(n: real, m: real)
    ensures n / 100.0 * m == n * m / 100.0
  {
  }

  lemma RoundMonotone(x: real, y: real)
    requires x <= y
    ensures Round(x) <= Round(y)
  {
  }

  lemma RankMonotone(n1: real, n2: real, count: nat)
    requires 0.0 <= n1 <= n2 <= 100.0 && count > 0
    ensures RankIndex(n1, count) <= RankIndex(n2, count)
  {
    hide Round, ScaledIndex;
    ScaledMonotone(n1, n2, count);
    RoundMonotone(ScaledIndex(n1, count), ScaledIndex(n2, count));
  }

  function Percentile(s: seq<real>, n: real): Option<real> {
    if !(0.0 <= n <= 100.0) || s == [] then None
    else
      SortSorts(s);
      RankInBounds(n, |s|);
      Some(Sort(s)[RankIndex(n, |s|)])
  }

  /** The program's steps: range check, sort, two edge cases, rounded index. */
  method PercentileRtt(ms: seq<Measurement>, n: real) returns (r: Option<real>)
    ensures r == Percentile(Rtts(ms), n)
  {
    if !(0.0 <= n <= 100.0) {
      return None;
    }
    var rtts := Rtts(ms);
    if rtts == [] {
      return None;
    }
    SortSorts(rtts);
    RankInBounds(n, |rtts|);
    rtts := Sort(rtts);
    if n == 0.0 {
      return Some(rtts[0]);
    }
    if n == 100.0 {
      return Some(rtts[|rtts| - 1]);
    }
    var index := RankIndex(n, |rtts|);
    return Some(rtts[index]);
  }

  function CountBelow(s: seq<real>, v: real): nat {
    if s == [] then 0 else CountBelow(s[..|s| - 1], v) + if s[|s| - 1] < v then 1 else 0
  }

  function CountUpTo(s: seq<real>, v: real): nat {
    if s == [] then 0 else CountUpTo(s[..|s| - 1], v) + if s[|s| - 1] <= v then 1 else 0
  }

  lemma CountLast(s: seq<real>, x: real, v: real)
    ensures CountBelow(s + [x], v) == CountBelow(s, v) + if x < v then 1 else 0
    ensures CountUpTo(s + [x], v) == CountUpTo(s, v) + if x <= v then 1 else 0
  {
    assert (s + [x])[..|s|] == s;
  }

  lemma {:induction false} InsertCounts(s: seq<real>, x: real, v: real)
    ensures CountBelow(Insert(s, x), v) == CountBelow(s, v) + if x < v then 1 else 0
    ensures CountUpTo(Insert(s, x), v) == CountUpTo(s, v) + if x <= v then 1 else 0
  {
    if s == [] {
      CountLast([], x, v);
    } else if s[|s| - 1] <= x {
      CountLast(s, x, v);
    } else {
      InsertCounts(s[..|s| - 1], x, v);
      CountLast(Insert(s[..|s| - 1], x), s[|s| - 1], v);
    }
  }

  lemma {:induction false} SortCounts(s: seq<real>, v: real)
    ensures CountBelow(Sort(s), v) == CountBelow(s, v) && CountUpTo(Sort(s), v) == CountUpTo(s, v)
  {
    if s != [] {
      SortCounts(s[..|s| - 1], v);
      InsertCounts(Sort(s[..|s| - 1]), s[|s| - 1], v);
    }
  }

  /** In a sorted list, the entry at `k` has at most `k` entries below it and more than `k` at
      or below it. */
  lemma {:induction false} SortedCounts(a: seq<real>, m: nat, k: nat)
    requires IsSorted(a) && k < |a| && m <= |a|
    ensures CountBelow(a[..m], a[k]) <= k && CountBelow(a[..m], a[k]) <= m
    ensures CountUpTo(a[..m], a[k]) >= if m <= k then m else k + 1
  {
    if m > 0 {
      SortedCounts(a, m - 1, k);
      CountLast(a[..m - 1], a[m - 1], a[k]);
      assert a[..m] == a[..m - 1] + [a[m - 1]];
    }
  }

  /** Which value a percentile is, by counting in the measurements as they came: with k the
      rounded index, at most k of them are below it and more than k are at or below it. */
  lemma PercentileByCount(s: seq<real>, n: real)
    requires 0.0 <= n <= 100.0 && s != []
    ensures var v, k := Percentile(s, n).value, (n / 100.0 * (|s| - 1) as real + 0.5).Floor;
      CountBelow(s, v) <= k < CountUpTo(s, v)
  {
    hide Sort, IsSorted, CountBelow, CountUpTo;
    SortSorts(s);
    RankInBounds(n, |s|);
    var a, k := Sort(s), RankIndex(n, |s|);
    SortedCounts(a, |a|, k);
    assert a[..|a|] == a;
    SortCounts(s, a[k]);
  }

  lemma SortedEnds(s: seq<real>)
    requires s != []
    ensures |Sort(s)| == |s| && Sort(s)[0] == MinOf(s) && Sort(s)[|s| - 1] == MaxOf(s)
  {
    hide Sort, MinOf, MaxOf;
    SortSorts(s);
    var t := Sort(s);
    assert t[0] in multiset(t) && t[|s| - 1] in multiset(t);
    assert MinOf(s) in multiset(t) && MaxOf(s) in multiset(t);
    var i :| 0 <= i < |t| && t[i] == MinOf(s);
    var j :| 0 <= j < |t| && t[j] == MaxOf(s);
  }

  /** A percentile is defined exactly for n in 0..100 with something measured; it is a
      measured value between minimum and maximum, which it meets at 0 and 100. */
  lemma PercentileIsMeasured(s: seq<real>, n: real)
    ensures Percentile(s, n).Some? <==> 0.0 <= n <= 100.0 && s != []
    ensures Percentile(s, n).Some? ==> Percentile(s, n).value in s
    ensures s != [] ==> Percentile(s, 0.0) == Some(MinOf(s)) && Percentile(s, 100.0) == Some(MaxOf(s))
  {
    hide Sort, MinOf, MaxOf, RankIndex;
    if s != [] {
      SortSorts(s);
      SortedEnds(s);
      RankInBounds(0.0, |s|);
      RankInBounds(100.0, |s|);
      if 0.0 <= n <= 100.0 {
        RankInBounds(n, |s|);
        assert Sort(s)[RankIndex(n, |s|)] in multiset(Sort(s));
      }
    }
  }

  /** Percentiles are monotone in n. */
  lemma PercentileMonotone(s: seq<real>, n1: real, n2: real)
    requires s != [] && 0.0 <= n1 <= n2 <= 100.0
    ensures Percentile(s, n1).value <= Percentile(s, n2).value
  {
    hide Sort, RankIndex;
    SortSorts(s);
    RankInBounds(n1, |s|);
    RankInBounds(n2, |s|);
    RankMonotone(n1, n2, |s|);
  }

  /** Percentiles do not depend on the order of the measurements. */
  lemma PercentileOrderFree(s: seq<real>, t: seq<real>, n: real)
    requires multiset(s) == multiset(t)
    ensures Percentile(s, n) == Percentile(t, n)
  {
    hide RankIndex, Sort;
    assert |multiset(s)| == |s| && |multiset(t)| == |t|;
    SortSorts(s);
    SortSorts(t);
    SortedUnique(Sort(s), Sort(t));
  }

  lemma LastIsLargest(a: seq<real>, x: real)
    requires IsSorted(a) && x in multiset(a)
    ensures a != [] && x <= a[|a| - 1]
  {
    var i :| 0 <= i < |a| && a[i] == x;
  }

  lemma DropLast(a: seq<real>)
    requires a != []
    ensures multiset(a[..|a| - 1]) == multiset(a) - multiset{a[|a| - 1]}
  {
    assert a == a[..|a| - 1] + [a[|a| - 1]];
  }

  lemma LastsAgree(a: seq<real>, b: seq<real>)
    requires IsSorted(a) && IsSorted(b) && multiset(a) == multiset(b) && a != []
    ensures b != [] && a[|a| - 1] == b[|b| - 1]
  {
    assert a[|a| - 1] in multiset(a);
    LastIsLargest(b, a[|a| - 1]);
    assert b[|b| - 1] in multiset(b);
    LastIsLargest(a, b[|b| - 1]);
  }

  lemma SortedPrefix(a: seq<real>)
    requires IsSorted(a) && a != []
    ensures IsSorted(a[..|a| - 1])
  {
  }

  lemma {:induction false} SortedUnique(a: seq<real>, b: seq<real>)
    requires IsSorted(a) && IsSorted(b) && multiset(a) == multiset(b)
    ensures a == b
  {
    hide IsSorted;
    assert |multiset(a)| == |a| && |multiset(b)| == |b|;
    if a != [] {
      LastsAgree(a, b);
      DropLast(a);
      DropLast(b);
      SortedPrefix(a);
      SortedPrefix(b);
      SortedUnique(a[..|a| - 1], b[..|b| - 1]);
      assert a == a[..|a| - 1] + [a[|a| - 1]];
    }
  }

  /** For example, the median of 1, 2 and 3 is 2, in whatever order they were measured. */
  lemma MedianOfThree(s: seq<real>)
    requires multiset(s) == multiset{1.0, 2.0, 3.0}
    ensures Percentile(s, 50.0) == Some(2.0)
  {
    hide Sort;
    var a := [1.0, 2.0, 3.0];
    SortSorts(s);
    assert multiset(a) == multiset{1.0, 2.0, 3.0};
    SortedUnique(Sort(s), a);
    assert |multiset(s)| == |s|;
    assert 50.0 / 100.0 * 2.0 == 1.0;
  }

  /** Where the n-th percentile stands among `count` values: p*count, with p = n/100. */
  function Rank(n: real, count: nat): real {
    n / 100.0 * count as real
  }

  /** The textbook nearest-rank index (counting from 0). */
  function NearestRank(n: real, count: nat): int {
    -((-Rank(n, count)).Floor) - 1
  }

  /** The code's index is not the nearest rank: it differs for the median of two values. */
  lemma MedianOfTwoIsNotNearestRank()
    ensures RankIndex(50.0, 2) == 1 && NearestRank(50.0, 2) == 0
  {
    assert 50.0 / 100.0 * 1.0 == 0.5;
    assert Rank(50.0, 2) == 1.0;
  }

  /** Fractional part of the requested rank. */
  function RankFraction(n: real, count: nat): real {
    Rank(n, count) - Rank(n, count).Floor as real
  }

  lemma IndexByRank(n: real, count: nat)
    requires count > 0
    ensures RankIndex(n, count) == Round(Rank(n, count) - n / 100.0)
  {
    OneLess(n, count as real, (count - 1) as real);
    assert n / 100.0 * (count - 1) as real == Rank(n, count) - n / 100.0;
  }

  lemma RanksOf(n: real, count: nat)
    requires count > 0
    ensures var x := Rank(n, count);
      && RankIndex(n, count) == (x - n / 100.0 + 0.5).Floor
      && NearestRank(n, count) == if RankFraction(n, count) == 0.0 then x.Floor - 1 else x.Floor
  {
    hide Rank, RankIndex;
    IndexByRank(n, count);
    CeilingByFloor(Rank(n, count));
  }

  lemma CeilingByFloor(x: real)
    ensures -((-x).Floor) == if x == x.Floor as real then x.Floor else x.Floor + 1
  {
    if x == x.Floor as real {
      assert -x == (-x.Floor) as real;
    }
  }

  lemma OneLess(n: real, m: real, less: real)
    requires less == m - 1.0
    ensures n / 100.0 * less == n / 100.0 * m - n / 100.0
  {
    assert n * less == n * m - n;
  }

  /** They agree exactly when the fractional part f of p*count is close to the requested
      fraction p: within half a step of it, or, when the rank is whole, p above a half. */
  lemma NearestRankIff(n: real, count: nat)
    requires 0.0 < n <= 100.0 && count > 0
    ensures var p, f := n / 100.0, RankFraction(n, count);
      RankIndex(n, count) == NearestRank(n, count) <==> if f == 0.0 then n > 50.0 else p - 0.5 <= f < p + 0.5
  {
    hide RankIndex, NearestRank, Rank;
    RanksOf(n, count);
  }

  /** They never differ by more than one: up to the median the code is at the nearest rank
      or one above it, beyond the median at it or one below. */
  lemma NearestRankWithinOne(n: real, count: nat)
    requires 0.0 < n <= 100.0 && count > 0
    ensures var off := RankIndex(n, count) - NearestRank(n, count);
      if n <= 50.0 then 0 <= off <= 1 else -1 <= off <= 0
  {
    hide RankIndex, NearestRank, Rank;
    RanksOf(n, count);
  }
}
