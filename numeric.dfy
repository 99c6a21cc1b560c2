/** Numeric conversions the source performs with `floor`, `ceil`, `min` and `as` casts. */
module Numeric {

  /** An unsigned 8-bit value, Rust's `u8`. */
  type Byte = b: int | 0 <= b < 256

  /** The largest value of Rust's `u64`. */
  const U64_MAX: nat := 0xFFFF_FFFF_FFFF_FFFF

  /** `f64::floor`, on exact reals. */
  function Floor(r: real): (n: int)
    ensures n as real <= r < n as real + 1.0
  {
    r.Floor
  }

  /** `f64::ceil`, on exact reals. */
  function Ceil(r: real): (n: int)
    ensures n as real - 1.0 < r <= n as real
  {
    -((-r).Floor)
  }

  /** Rust's saturating float-to-`u64` cast, applied to an already rounded value. */
  function CastU64(n: int): (r: nat)
    ensures r <= U64_MAX
    ensures 0 <= n <= U64_MAX ==> r == n
    ensures n < 0 ==> r == 0
    ensures n > U64_MAX ==> r == U64_MAX
  {
    if n < 0 then 0 else if n > U64_MAX then U64_MAX else n
  }

  /** `f64::min`. */
  function MinReal(a: real, b: real): (m: real)
    ensures m <= a && m <= b
    ensures m == a || m == b
  {
    if a <= b then a else b
  }

  /** `usize::min`. */
  function MinNat(a: nat, b: nat): (m: nat)
    ensures m <= a && m <= b
    ensures m == a || m == b
  {
    if a <= b then a else b
  }

  /** Number of cells along one axis when the extent is rounded up: `(size / cell_size).ceil() as u64`. */
  function CellCountCeil(size: real, cellSize: real): (n: nat)
    requires cellSize != 0.0
    ensures n <= U64_MAX
    ensures size / cellSize <= 0.0 ==> n == 0
    ensures 0.0 < size / cellSize <= U64_MAX as real ==> n as real - 1.0 < size / cellSize <= n as real
  {
    CastU64(Ceil(size / cellSize))
  }

  /** Number of cells along one axis when the extent is rounded down: `(size / cell_size).floor() as u64`. */
  function CellCountFloor(size: real, cellSize: real): (n: nat)
    requires cellSize != 0.0
    ensures n <= U64_MAX
    ensures size / cellSize < 0.0 ==> n == 0
    ensures 0.0 <= size / cellSize < U64_MAX as real ==> n as real <= size / cellSize < n as real + 1.0
  {
    CastU64(Floor(size / cellSize))
  }

  /** `amount` added to itself n times, starting from zero. */
  function Times(n: nat, amount: real): (r: real)
  {
    if n == 0 then 0.0 else Times(n - 1, amount) + amount
  }

  /** Adding `amount` n times adds n * amount. */
  lemma {:induction false} TimesIsProduct(n: nat, amount: real)
    ensures Times(n, amount) == (n as real) * amount
  {
    if n > 0 {
      TimesIsProduct(n - 1, amount);
    }
  }
}
