/**
 * Row-major flat indexing with x fastest, then y, then z: `x + y * nx + z * nx * ny`.
 * The same formula addresses simulation cells, runner cells, cells inside a world chunk,
 * chunks in the order the builder emits them, and positions of the box iterator.
 */
module Indexing {

  function Flatten(x: nat, y: nat, z: nat, nx: nat, ny: nat): nat
  {
    x + y * nx + z * nx * ny
  }

  /** A positive multiple of `d` is at least `d`. */
  lemma {:induction false} MulAtLeast(d: nat, k: nat)
    requires k >= 1
    ensures d * k >= d
  {
    if k > 1 {
      MulAtLeast(d, k - 1);
      assert d * k == d * (k - 1) + d;
    }
  }

  /** Quotient and remainder by `d` are unique. */
  lemma DivUnique(d: nat, q1: nat, r1: nat, q2: nat, r2: nat)
    requires r1 < d && r2 < d
    requires r1 + d * q1 == r2 + d * q2
    ensures q1 == q2 && r1 == r2
  {
    if q1 != q2 {
      var lo, hi := if q1 < q2 then q1 else q2, if q1 < q2 then q2 else q1;
      MulAtLeast(d, hi - lo);
    }
  }

  /** The flat index in nested form: x + nx * (y + ny * z). */
  lemma FlattenNested(x: nat, y: nat, z: nat, nx: nat, ny: nat)
    ensures Flatten(x, y, z, nx, ny) == x + nx * (y + ny * z)
  {
    assert z * nx * ny == nx * (ny * z);
    assert y * nx + nx * (ny * z) == nx * (y + ny * z);
  }

  /** Flattening is injective on coordinates inside the first two axes. */
  lemma FlattenInjective(x1: nat, y1: nat, z1: nat, x2: nat, y2: nat, z2: nat, nx: nat, ny: nat)
    requires x1 < nx && x2 < nx && y1 < ny && y2 < ny
    requires Flatten(x1, y1, z1, nx, ny) == Flatten(x2, y2, z2, nx, ny)
    ensures x1 == x2 && y1 == y2 && z1 == z2
  {
    FlattenNested(x1, y1, z1, nx, ny);
    FlattenNested(x2, y2, z2, nx, ny);
    DivUnique(nx, y1 + ny * z1, x1, y2 + ny * z2, x2);
    DivUnique(ny, z1, y1, z2, y2);
  }

  /** An in-range cell flattens to an index below the cell total. */
  lemma FlattenBound(x: nat, y: nat, z: nat, nx: nat, ny: nat, nz: nat)
    requires x < nx && y < ny && z < nz
    ensures Flatten(x, y, z, nx, ny) < nx * ny * nz
  {
    FlattenNested(x, y, z, nx, ny);
    MulMono(ny, z, nz - 1);
    assert ny * nz == ny * (nz - 1) + ny;
    var inner: nat := y + ny * z;
    var top: nat := ny * nz - 1;
    MulMono(nx, inner, top);
    assert nx * top == nx * (ny * nz) - nx;
    assert nx * (ny * nz) == nx * ny * nz;
  }

  /** Multiplying by a natural number preserves order. */
  lemma MulMono(k: nat, a: nat, b: nat)
    requires a <= b
    ensures k * a <= k * b
  {
    assert k * b == k * a + k * (b - a);
  }

  /** Advancing x from its last value carries into y. */
  lemma FlattenCarryX(y: nat, z: nat, nx: nat, ny: nat)
    ensures Flatten(nx, y, z, nx, ny) == Flatten(0, y + 1, z, nx, ny)
  {
    assert (y + 1) * nx == y * nx + nx;
  }

  /** Advancing y from its last value carries into z. */
  lemma FlattenCarryY(z: nat, nx: nat, ny: nat)
    ensures Flatten(0, ny, z, nx, ny) == Flatten(0, 0, z + 1, nx, ny)
  {
    assert (z + 1) * nx * ny == z * nx * ny + nx * ny;
  }

  /** Removing the last of n blocks of size a leaves (n - 1) * a. */
  lemma MulPred(n: nat, a: nat)
    requires n > 0
    ensures (n - 1) * a + a == n * a
  {
  }

  /** Entry i of block j, with blocks of size a, lies within n blocks when j < n. */
  lemma IndexInBlocks(i: nat, j: nat, a: nat, n: nat)
    requires i < a && j < n
    ensures i + j * a < n * a
  {
    MulPred(j + 1, a);
    MulMono(a, j + 1, n);
    assert a * (j + 1) == (j + 1) * a && a * n == n * a;
  }

  /** The flat index as a position inside a z-layer plus a whole number of layers. */
  lemma FlattenLayers(x: nat, y: nat, z: nat, nx: nat, ny: nat)
    ensures Flatten(x, y, z, nx, ny) == (x + y * nx) + z * (nx * ny)
  {
    assert z * nx * ny == z * (nx * ny);
  }

  /** A product of three factors does not depend on their grouping and order. */
  lemma MulRegroup(a: nat, b: nat, c: nat)
    ensures a * (c * b) == a * b * c
  {
  }

  /** A product of three factors is the same read backwards. */
  lemma MulReverse(a: nat, b: nat, c: nat)
    ensures a * b * c == c * b * a
  {
  }

  /** Integer division by a positive divisor is monotone. */
  lemma DivMonotone(a: nat, b: nat, c: nat)
    requires c > 0 && a <= b
    ensures a / c <= b / c
  {
    if a / c > b / c {
      assert a == c * (a / c) + a % c;
      assert b == c * (b / c) + b % c;
      MulMono(c, b / c + 1, a / c);
    }
  }
}
