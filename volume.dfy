/**
 * Axis-aligned box volumes and their cell iterator (`src/volume.rs`).
 *
 * The iterator keeps three counters and, on every call of `next` that has not
 * finished, advances x with carries into y and z BEFORE producing a cell. So it
 * never produces the origin offset (0, 0, 0); it produces the row-major ranks
 * 1 .. (lenX+1)(lenY+1)(lenZ+1) of the box, the last one being (0, 0, lenZ + 1).
 */
module Volume {
  import opened Wrappers
  import opened Numeric
  import opened Indexing

  /** An axis-aligned box given by two corners in world units; its constructor is `AABBVolume::new`. */
  datatype AABBVolume = AABBVolume(minX: real, minY: real, minZ: real, maxX: real, maxY: real, maxZ: real)

  /** A cell coordinate, the `(u64, u64, u64)` the iterator yields. */
  datatype Cell = Cell(x: nat, y: nat, z: nat)

  /** The iterator's counters, an offset from its origin cell. */
  datatype Offset = Offset(x: nat, y: nat, z: nat)

  /** Counter values the iterator can be in: x and y within their lengths, z at most one past
      its length, and x = y = 0 once z is past. */
  predicate Reachable(o: Offset, lenX: nat, lenY: nat, lenZ: nat)
  {
    o.x <= lenX && o.y <= lenY && o.z <= lenZ + 1 && (o.z == lenZ + 1 ==> o.x == 0 && o.y == 0)
  }

  /** Row-major rank of an offset in a box whose axes hold lenX + 1 and lenY + 1 cells. */
  function Rank(o: Offset, lenX: nat, lenY: nat): nat
  {
    Flatten(o.x, o.y, o.z, lenX + 1, lenY + 1)
  }

  /** Number of cells of the closed box [0, len] on all three axes. */
  function BoxCount(lenX: nat, lenY: nat, lenZ: nat): nat
  {
    (lenX + 1) * (lenY + 1) * (lenZ + 1)
  }

  /** The counter update of `next`: x + 1, carrying into y past lenX, and into z past lenY. */
  function Advance(o: Offset, lenX: nat, lenY: nat): (r: Offset)
    requires o.x <= lenX && o.y <= lenY
    ensures r.x <= lenX && r.y <= lenY
    ensures r.z == o.z || (r.z == o.z + 1 && r.x == 0 && r.y == 0)
  {
    var x1 := o.x + 1;
    var x2, y1 := if x1 > lenX then 0 else x1, if x1 > lenX then o.y + 1 else o.y;
    if y1 > lenY then Offset(x2, 0, o.z + 1) else Offset(x2, y1, o.z)
  }

  /** The counter update moves to the next row-major rank. */
  lemma AdvanceRank(o: Offset, lenX: nat, lenY: nat)
    requires o.x <= lenX && o.y <= lenY
    ensures Rank(Advance(o, lenX, lenY), lenX, lenY) == Rank(o, lenX, lenY) + 1
  {
    if o.x + 1 > lenX {
      FlattenCarryX(o.y, o.z, lenX + 1, lenY + 1);
      if o.y + 1 > lenY {
        FlattenCarryY(o.z, lenX + 1, lenY + 1);
      }
    }
  }

  /** A reachable offset has rank at most the box count, and exactly the box count once z is past. */
  lemma RankBelowCount(o: Offset, lenX: nat, lenY: nat, lenZ: nat)
    requires Reachable(o, lenX, lenY, lenZ)
    ensures Rank(o, lenX, lenY) <= BoxCount(lenX, lenY, lenZ)
    ensures Rank(o, lenX, lenY) == BoxCount(lenX, lenY, lenZ) <==> o.z > lenZ
  {
    var nx, ny := lenX + 1, lenY + 1;
    if o.z <= lenZ {
      FlattenBound(o.x, o.y, o.z, nx, ny, lenZ + 1);
      assert nx * ny * (lenZ + 1) == BoxCount(lenX, lenY, lenZ);
    } else {
      assert o.z * nx * ny == BoxCount(lenX, lenY, lenZ);
    }
  }

  /** The offsets `next` yields from the counters `o` until it returns `None`. */
  function YieldsFrom(o: Offset, lenX: nat, lenY: nat, lenZ: nat): seq<Offset>
    requires Reachable(o, lenX, lenY, lenZ)
    decreases BoxCount(lenX, lenY, lenZ) - Rank(o, lenX, lenY)
  {
    if o.z > lenZ then []
    else
      var n := Advance(o, lenX, lenY);
      AdvanceRank(o, lenX, lenY);
      RankBelowCount(o, lenX, lenY, lenZ);
      RankBelowCount(n, lenX, lenY, lenZ);
      [n] + YieldsFrom(n, lenX, lenY, lenZ)
  }

  /** The offsets a fresh iterator yields. */
  function Yields(lenX: nat, lenY: nat, lenZ: nat): seq<Offset>
  {
    YieldsFrom(Offset(0, 0, 0), lenX, lenY, lenZ)
  }

  /** From counters `o`, the k-th yield has rank Rank(o) + k + 1 and is reachable, and there are
      exactly as many yields as ranks left. */
  lemma {:induction false} YieldsFromRanks(o: Offset, lenX: nat, lenY: nat, lenZ: nat)
    requires Reachable(o, lenX, lenY, lenZ)
    ensures Rank(o, lenX, lenY) + |YieldsFrom(o, lenX, lenY, lenZ)| == BoxCount(lenX, lenY, lenZ)
    ensures forall k :: 0 <= k < |YieldsFrom(o, lenX, lenY, lenZ)| ==>
      Reachable(YieldsFrom(o, lenX, lenY, lenZ)[k], lenX, lenY, lenZ) &&
      Rank(YieldsFrom(o, lenX, lenY, lenZ)[k], lenX, lenY) == Rank(o, lenX, lenY) + k + 1
    decreases BoxCount(lenX, lenY, lenZ) - Rank(o, lenX, lenY)
  {
    RankBelowCount(o, lenX, lenY, lenZ);
    if o.z <= lenZ {
      var n := Advance(o, lenX, lenY);
      AdvanceRank(o, lenX, lenY);
      RankBelowCount(n, lenX, lenY, lenZ);
      YieldsFromRanks(n, lenX, lenY, lenZ);
      var ys := YieldsFrom(o, lenX, lenY, lenZ);
      assert ys == [n] + YieldsFrom(n, lenX, lenY, lenZ);
      forall k | 0 <= k < |ys|
        ensures Reachable(ys[k], lenX, lenY, lenZ) && Rank(ys[k], lenX, lenY) == Rank(o, lenX, lenY) + k + 1
      {
        if k > 0 {
          assert ys[k] == YieldsFrom(n, lenX, lenY, lenZ)[k - 1];
        }
      }
    }
  }

  /**
   * A fresh iterator yields exactly (lenX+1)(lenY+1)(lenZ+1) offsets; the k-th has row-major
   * rank k + 1, so ranks strictly increase; x stays within [0, lenX], y within [0, lenY] and
   * z within [0, lenZ + 1].
   */
  lemma YieldsAreSuccessorRanks(lenX: nat, lenY: nat, lenZ: nat)
    ensures |Yields(lenX, lenY, lenZ)| == BoxCount(lenX, lenY, lenZ)
    ensures forall k :: 0 <= k < |Yields(lenX, lenY, lenZ)| ==>
      Rank(Yields(lenX, lenY, lenZ)[k], lenX, lenY) == k + 1 &&
      Yields(lenX, lenY, lenZ)[k].x <= lenX && Yields(lenX, lenY, lenZ)[k].y <= lenY &&
      Yields(lenX, lenY, lenZ)[k].z <= lenZ + 1
  {
    YieldsFromRanks(Offset(0, 0, 0), lenX, lenY, lenZ);
  }

  /** No offset is yielded twice, and the origin offset (0, 0, 0) is never yielded. */
  lemma YieldsDistinctWithoutOrigin(lenX: nat, lenY: nat, lenZ: nat)
    ensures Distinct(Yields(lenX, lenY, lenZ))
    ensures Offset(0, 0, 0) !in Yields(lenX, lenY, lenZ)
  {
    YieldsAreSuccessorRanks(lenX, lenY, lenZ);
    var ys := Yields(lenX, lenY, lenZ);
    forall i, j | 0 <= i < j < |ys| ensures ys[i] != ys[j] {
      assert Rank(ys[i], lenX, lenY) == i + 1;
    }
  }

  /** The last offset yielded is one past the box on the z axis: (0, 0, lenZ + 1). */
  lemma LastYieldLeavesBox(lenX: nat, lenY: nat, lenZ: nat)
    ensures |Yields(lenX, lenY, lenZ)| > 0
    ensures Yields(lenX, lenY, lenZ)[|Yields(lenX, lenY, lenZ)| - 1] == Offset(0, 0, lenZ + 1)
  {
    YieldsFromRanks(Offset(0, 0, 0), lenX, lenY, lenZ);
    var ys := Yields(lenX, lenY, lenZ);
    assert BoxCount(lenX, lenY, lenZ) >= 1 by {
      MulAtLeast(lenX + 1, lenY + 1);
      MulAtLeast((lenX + 1) * (lenY + 1), lenZ + 1);
    }
    var last := ys[|ys| - 1];
    RankBelowCount(last, lenX, lenY, lenZ);
  }

  /** Each yield is the counter update of the one before, starting from the update of `o`;
      every yield is reachable, and only the last one is past the box on the z axis. There are
      none at all exactly when `o` is already past. */
  lemma {:induction false} YieldsFromChain(o: Offset, lenX: nat, lenY: nat, lenZ: nat)
    requires Reachable(o, lenX, lenY, lenZ)
    ensures YieldsFrom(o, lenX, lenY, lenZ) == [] <==> o.z > lenZ
    ensures YieldsFrom(o, lenX, lenY, lenZ) != [] ==> YieldsFrom(o, lenX, lenY, lenZ)[0] == Advance(o, lenX, lenY)
    ensures forall k :: 0 <= k < |YieldsFrom(o, lenX, lenY, lenZ)| ==>
      Reachable(YieldsFrom(o, lenX, lenY, lenZ)[k], lenX, lenY, lenZ) &&
      (YieldsFrom(o, lenX, lenY, lenZ)[k].z > lenZ <==> k == |YieldsFrom(o, lenX, lenY, lenZ)| - 1)
    ensures forall i, j {:trigger YieldsFrom(o, lenX, lenY, lenZ)[i], YieldsFrom(o, lenX, lenY, lenZ)[j]} ::
      0 <= i && j == i + 1 && j < |YieldsFrom(o, lenX, lenY, lenZ)| ==>
      Reachable(YieldsFrom(o, lenX, lenY, lenZ)[i], lenX, lenY, lenZ) &&
      YieldsFrom(o, lenX, lenY, lenZ)[j] == Advance(YieldsFrom(o, lenX, lenY, lenZ)[i], lenX, lenY)
    decreases BoxCount(lenX, lenY, lenZ) - Rank(o, lenX, lenY)
  {
    if o.z <= lenZ {
      var n := Advance(o, lenX, lenY);
      AdvanceRank(o, lenX, lenY);
      RankBelowCount(o, lenX, lenY, lenZ);
      RankBelowCount(n, lenX, lenY, lenZ);
      YieldsFromChain(n, lenX, lenY, lenZ);
      var rest := YieldsFrom(n, lenX, lenY, lenZ);
      var ys := YieldsFrom(o, lenX, lenY, lenZ);
      assert ys == [n] + rest;
      forall k | 0 <= k < |ys|
        ensures Reachable(ys[k], lenX, lenY, lenZ) && (ys[k].z > lenZ <==> k == |ys| - 1)
      {
        if k > 0 {
          assert ys[k] == rest[k - 1];
        } else if rest != [] {
          assert n.z <= lenZ;
        }
      }
      forall i, j | 0 <= i && j == i + 1 && j < |ys|
        ensures ys[j] == Advance(ys[i], lenX, lenY)
      {
        assert ys[j] == rest[i];
        if i > 0 {
          assert ys[i] == rest[i - 1];
        }
      }
    }
  }

  /** No element of `s` occurs twice. */
  predicate Distinct<T(==)>(s: seq<T>)
  {
    forall i, j :: 0 <= i < j < |s| ==> s[i] != s[j]
  }

  /** The cell at offset `o` from `origin`. */
  function CellAt(origin: Cell, o: Offset): Cell
  {
    Cell(origin.x + o.x, origin.y + o.y, origin.z + o.z)
  }

  /** The cells at the given offsets from `origin`, in order. */
  function Translate(origin: Cell, offsets: seq<Offset>): (cells: seq<Cell>)
    ensures |cells| == |offsets|
    ensures forall k :: 0 <= k < |offsets| ==> cells[k] == CellAt(origin, offsets[k])
  {
    seq(|offsets|, k requires 0 <= k < |offsets| => CellAt(origin, offsets[k]))
  }

  /** The iterator's origin: the floor of the minimum corner, NOT divided by the cell size. */
  function IterOrigin(v: AABBVolume): Cell
  {
    Cell(CastU64(Floor(v.minX)), CastU64(Floor(v.minY)), CastU64(Floor(v.minZ)))
  }

  /** The iterator's lengths: the ceiling of each extent divided by the cell size. */
  function IterLengths(v: AABBVolume, cellSize: real): Offset
    requires cellSize != 0.0
  {
    Offset(CastU64(Ceil((v.maxX - v.minX) / cellSize)),
           CastU64(Ceil((v.maxY - v.minY) / cellSize)),
           CastU64(Ceil((v.maxZ - v.minZ) / cellSize)))
  }

  /** The cells `cell_iter(cellSize)` yields for `v`, in order. */
  function CellSeq(v: AABBVolume, cellSize: real): seq<Cell>
    requires cellSize != 0.0
  {
    var len := IterLengths(v, cellSize);
    Translate(IterOrigin(v), Yields(len.x, len.y, len.z))
  }

  /** Translating distinct offsets by one origin gives distinct cells. */
  lemma TranslateDistinct(origin: Cell, offsets: seq<Offset>)
    requires Distinct(offsets)
    ensures Distinct(Translate(origin, offsets))
  {
  }

  /** A volume never yields the same cell twice. */
  lemma CellSeqDistinct(v: AABBVolume, cellSize: real)
    requires cellSize != 0.0
    ensures Distinct(CellSeq(v, cellSize))
  {
    var len := IterLengths(v, cellSize);
    YieldsDistinctWithoutOrigin(len.x, len.y, len.z);
    TranslateDistinct(IterOrigin(v), Yields(len.x, len.y, len.z));
  }

  /**
   * The iterator `cell_iter` returns for an `AABBVolume`. Its origin is the floor of the
   * minimum corner, NOT divided by the cell size; its lengths are the ceiling of the extent
   * divided by the cell size. Both go through Rust's saturating cast to `u64`.
   */
  class AABBVolumeIter {
    const minX: nat
    const minY: nat
    const minZ: nat
    const lenX: nat
    const lenY: nat
    const lenZ: nat
    var x: nat
    var y: nat
    var z: nat
    /** The offsets this iterator yields, in order, and the cells at those offsets. */
    ghost const offsets: seq<Offset>
    ghost const cells: seq<Cell>
    /** How many cells `next` has yielded so far. */
    ghost var count: nat

    /** The counters are reachable; they are zero before the first yield and the last offset
        yielded after it; they are past the box exactly when every offset has been yielded; each
        offset is the counter update of the one before, and each cell lies at its offset. */
    ghost predicate Valid()
      reads this
    {
      Reachable(Offset(x, y, z), lenX, lenY, lenZ) &&
      count <= |offsets| && |cells| == |offsets| &&
      (count == 0 ==> x == 0 && y == 0 && z == 0) &&
      (count > 0 ==> Offset(x, y, z) == offsets[count - 1]) &&
      (count == |offsets| <==> z > lenZ) &&
      (forall k :: 0 <= k < |offsets| ==>
        Reachable(offsets[k], lenX, lenY, lenZ) && (offsets[k].z > lenZ <==> k == |offsets| - 1)) &&
      (offsets != [] ==> offsets[0] == Advance(Offset(0, 0, 0), lenX, lenY)) &&
      (forall i, j {:trigger offsets[i], offsets[j]} :: 0 <= i && j == i + 1 && j < |offsets| ==>
        offsets[j] == Advance(offsets[i], lenX, lenY)) &&
      (forall k :: 0 <= k < |cells| ==> cells[k] == CellAt(Origin(), offsets[k]))
    }

    function Origin(): Cell
    {
      Cell(minX, minY, minZ)
    }

    /** The struct literal `cell_iter` builds: an origin, three lengths and counters at zero. */
    constructor (origin: Cell, len: Offset)
      ensures Origin() == origin && Offset(lenX, lenY, lenZ) == len
      ensures x == 0 && y == 0 && z == 0
      ensures Valid() && offsets == Yields(lenX, lenY, lenZ) && cells == Translate(origin, offsets) && count == 0
    {
      YieldsFromChain(Offset(0, 0, 0), len.x, len.y, len.z);
      minX, minY, minZ := origin.x, origin.y, origin.z;
      lenX, lenY, lenZ := len.x, len.y, len.z;
      x, y, z := 0, 0, 0;
      offsets := Yields(len.x, len.y, len.z);
      cells := Translate(origin, Yields(len.x, len.y, len.z));
      count := 0;
    }

    /**
     * `Iterator::next`. Once z is past lenZ it returns `None` and changes nothing, so every
     * later call returns `None` too. Otherwise it advances the counters to the next row-major
     * rank and yields the cell there, which is the next of `cells`.
     */
    method Next() returns (c: Option<Cell>)
      requires Valid()
      modifies this
      ensures Valid()
      ensures c == None <==> old(count) == |cells|
      ensures c.None? ==> count == old(count)
      ensures c.Some? ==> count == old(count) + 1 && c.value == cells[old(count)]
    {
      if z > lenZ {
        return None;
      }
      x := x + 1;
      if x > lenX {
        y := y + 1;
        x := 0;
      }
      if y > lenY {
        z := z + 1;
        y := 0;
      }
      c := Some(CellAt(Origin(), Offset(x, y, z)));
      count := count + 1;
    }
  }

  /** `CellIterator::cell_iter` for `AABBVolume`: a fresh iterator whose origin is the floor of
      the minimum corner and whose lengths are the ceiling of each extent over the cell size. */
  method CellIter(v: AABBVolume, cellSize: real) returns (it: AABBVolumeIter)
    requires cellSize != 0.0
    ensures fresh(it) && it.Valid() && it.count == 0 && it.cells == CellSeq(v, cellSize)
  {
    it := new AABBVolumeIter(IterOrigin(v), IterLengths(v, cellSize));
  }
}
