/**
 * The order in which three nested loops `for x { for y { for z { push f(x, y, z) } } }` emit
 * their items. The world builder emits its chunks this way and the threaded runner its chunk jobs.
 */
module NestedLoops {
  import opened Indexing

  /** The items f(cx, cy, 0) .. f(cx, cy, n - 1): the innermost loop. */
  function Row<T>(f: (nat, nat, nat) -> T, cx: nat, cy: nat, n: nat): (r: seq<T>)
    ensures |r| == n
  {
    if n == 0 then [] else Row(f, cx, cy, n - 1) + [f(cx, cy, n - 1)]
  }

  /** The rows 0 .. n - 1 of the x-slab `cx`, each of `nz` items: the middle loop. */
  function Slab<T>(f: (nat, nat, nat) -> T, nz: nat, cx: nat, n: nat): (r: seq<T>)
    ensures |r| == n * nz
  {
    if n == 0 then [] else
      var front := Slab(f, nz, cx, n - 1);
      MulPred(n, nz);
      front + Row(f, cx, n - 1, nz)
  }

  /** The slabs 0 .. n - 1, each of `ny` rows: the outer loop. */
  function Block<T>(f: (nat, nat, nat) -> T, ny: nat, nz: nat, n: nat): (r: seq<T>)
    ensures |r| == n * (nz * ny)
  {
    if n == 0 then [] else
      var front := Block(f, ny, nz, n - 1);
      MulPred(n, nz * ny);
      front + Slab(f, nz, n - 1, ny)
  }

  lemma {:induction false} RowAt<T>(f: (nat, nat, nat) -> T, cx: nat, cy: nat, n: nat, cz: nat)
    requires cz < n
    ensures Row(f, cx, cy, n)[cz] == f(cx, cy, cz)
  {
    if cz < n - 1 {
      RowAt(f, cx, cy, n - 1, cz);
    }
  }

  /**
   * Entry i of block j of m blocks of size a followed by one more block: in the first m blocks
   * when j < m, and entry i of the last block when j == m.
   */
  lemma ConcatAt<T>(front: seq<T>, back: seq<T>, a: nat, m: nat, i: nat, j: nat)
    requires |front| == m * a && |back| == a && i < a && j <= m
    ensures i + j * a < |front + back|
    ensures j < m ==> i + j * a < |front| && (front + back)[i + j * a] == front[i + j * a]
    ensures j == m ==> (front + back)[i + j * a] == back[i]
  {
    IndexInBlocks(i, j, a, m + 1);
    MulPred(m + 1, a);
    if j < m {
      IndexInBlocks(i, j, a, m);
    }
  }

  lemma {:induction false} SlabAt<T>(f: (nat, nat, nat) -> T, nz: nat, cx: nat, n: nat, cy: nat, cz: nat)
    requires cy < n && cz < nz
    ensures cz + cy * nz < |Slab(f, nz, cx, n)|
    ensures Slab(f, nz, cx, n)[cz + cy * nz] == f(cx, cy, cz)
  {
    var front, row := Slab(f, nz, cx, n - 1), Row(f, cx, n - 1, nz);
    assert Slab(f, nz, cx, n) == front + row;
    ConcatAt(front, row, nz, n - 1, cz, cy);
    if cy < n - 1 {
      SlabAt(f, nz, cx, n - 1, cy, cz);
    } else {
      RowAt(f, cx, cy, nz, cz);
    }
  }

  lemma {:induction false} BlockAt<T>(f: (nat, nat, nat) -> T, ny: nat, nz: nat, n: nat, cx: nat, cy: nat, cz: nat)
    requires cx < n && cy < ny && cz < nz
    ensures cz + cy * nz + cx * (nz * ny) < |Block(f, ny, nz, n)|
    ensures Block(f, ny, nz, n)[cz + cy * nz + cx * (nz * ny)] == f(cx, cy, cz)
  {
    var front, slab := Block(f, ny, nz, n - 1), Slab(f, nz, n - 1, ny);
    assert Block(f, ny, nz, n) == front + slab;
    assert |slab| == nz * ny;
    IndexInBlocks(cz, cy, nz, ny);
    ConcatAt(front, slab, nz * ny, n - 1, cz + cy * nz, cx);
    if cx < n - 1 {
      BlockAt(f, ny, nz, n - 1, cx, cy, cz);
    } else {
      SlabAt(f, nz, cx, ny, cy, cz);
    }
  }

  /** One more row extends a slab. */
  lemma SlabStep<T>(f: (nat, nat, nat) -> T, nz: nat, cx: nat, n: nat, prefix: seq<T>)
    ensures prefix + Slab(f, nz, cx, n + 1) == prefix + Slab(f, nz, cx, n) + Row(f, cx, n, nz)
  {
  }

  /** One more slab extends a block. */
  lemma BlockStep<T>(f: (nat, nat, nat) -> T, ny: nat, nz: nat, n: nat, prefix: seq<T>)
    ensures prefix + Block(f, ny, nz, n + 1) == prefix + Block(f, ny, nz, n) + Slab(f, nz, n, ny)
  {
  }

  /** Item (x, y, z) of n slabs of ny rows of nz items is at the flat index z + y * nz + x * nz * ny. */
  lemma BlockAtFlat<T>(f: (nat, nat, nat) -> T, ny: nat, nz: nat, n: nat, x: nat, y: nat, z: nat)
    requires x < n && y < ny && z < nz
    ensures |Block(f, ny, nz, n)| == n * ny * nz
    ensures Flatten(z, y, x, nz, ny) < |Block(f, ny, nz, n)|
    ensures Block(f, ny, nz, n)[Flatten(z, y, x, nz, ny)] == f(x, y, z)
  {
    BlockAt(f, ny, nz, n, x, y, z);
    FlattenLayers(z, y, x, nz, ny);
    MulRegroup(n, ny, nz);
  }
}
