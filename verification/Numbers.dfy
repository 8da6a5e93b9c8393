/** Machine numbers the protocol works with, and optional values: 64-bit unsigned integers, bytes, and
    the non-negative part of IEEE doubles with its two special values. Rounding is
    not modelled; infinity and NaN are, because a measured round trip of zero
    microseconds is divided by. */
module Numbers {

  const U64_LIMIT := 0x1_0000_0000_0000_0000

  type u64 = n: int | 0 <= n < 0x1_0000_0000_0000_0000

  type byte = n: int | 0 <= n < 256

  type bytes = seq<byte>

  type nonneg = r: real | r >= 0.0

  datatype Option<+T> = None | Some(value: T)

  /** `x += 1` on a `u64` in a release build. */
  function WrappingInc(n: u64): (r: u64)
    ensures n < U64_LIMIT - 1 ==> r == n + 1
    ensures n == U64_LIMIT - 1 ==> r == 0
  {
    if n == U64_LIMIT - 1 then 0 else n + 1
  }

  /** `x - y` on `u64` in a release build: below zero it wraps. */
  function WrappingSub(x: u64, y: u64): (d: u64)
    ensures x >= y ==> d == x - y
    ensures x < y ==> d == x - y + U64_LIMIT
  {
    if x >= y then x - y else x - y + U64_LIMIT
  }

  function Min(a: nat, b: nat): nat { if a <= b then a else b }

  function Max(a: nat, b: nat): nat { if a <= b then b else a }

  /** A non-negative double. */
  datatype Float = Fin(value: nonneg) | Inf | NaN

  lemma ProductNonneg(x: real, y: real)
    requires x >= 0.0 && y >= 0.0
    ensures x * y >= 0.0
  {
  }

  function Mul(x: Float, y: Float): Float {
    match (x, y)
    case (Fin(a), Fin(b)) => ProductNonneg(a, b); Fin(a * b)
    case (Inf, Fin(b)) => if b == 0.0 then NaN else Inf
    case (Fin(a), Inf) => if a == 0.0 then NaN else Inf
    case (Inf, Inf) => Inf
    case _ => NaN
  }

  function Div(x: Float, y: Float): Float {
    match (x, y)
    case (Fin(a), Fin(b)) => if b > 0.0 then Fin(a / b) else if a == 0.0 then NaN else Inf
    case (Inf, Fin(_)) => Inf
    case (Fin(_), Inf) => Fin(0.0)
    case _ => NaN
  }

  /** `f64::max`: a NaN operand is ignored. */
  function FMax(x: Float, y: Float): Float {
    match (x, y)
    case (Fin(a), Fin(b)) => if a <= b then y else x
    case (NaN, _) => y
    case (_, NaN) => x
    case _ => Inf
  }

  /** `<=` on doubles; false as soon as one side is NaN. */
  predicate Le(x: Float, y: Float) {
    match (x, y)
    case (Fin(a), Fin(b)) => a <= b
    case (Fin(_), Inf) => true
    case (Inf, Inf) => true
    case _ => false
  }

  /** `x as usize`: NaN becomes 0, large values saturate. */
  function ToUsize(x: Float): (n: u64)
    ensures x.Fin? && x.value < U64_LIMIT as real ==> n as real <= x.value < n as real + 1.0
  {
    match x
    case NaN => 0
    case Inf => U64_LIMIT - 1
    case Fin(r) => if r >= U64_LIMIT as real then U64_LIMIT - 1 else r.Floor
  }
}
