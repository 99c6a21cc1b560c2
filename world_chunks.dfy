/**
 * How `SimWorldBuilder::build` (`src/world.rs`) cuts the world into cube chunks and paints the
 * material ids of its brush operations into each chunk's byte buffer.
 */
module Chunks {
  import opened Numeric
  import opened Indexing
  import opened Materials
  import opened Volume
  import opened Wrappers
  import ByteStream

  /** `test_overlap`: the closed intervals [mina, maxa] and [minb, maxb] meet. */
  function TestOverlap(mina: nat, minb: nat, maxa: nat, maxb: nat): bool
  {
    mina <= maxb && minb <= maxa
  }

  /** `p` lies in the closed interval [lo, hi]. */
  predicate InInterval(p: nat, lo: nat, hi: nat)
  {
    lo <= p <= hi
  }

  /** For non-empty intervals, the test holds exactly when some point lies in both. */
  lemma OverlapIffCommonPoint(mina: nat, minb: nat, maxa: nat, maxb: nat)
    requires mina <= maxa && minb <= maxb
    ensures TestOverlap(mina, minb, maxa, maxb) <==>
            exists p :: InInterval(p, mina, maxa) && InInterval(p, minb, maxb)
  {
    if TestOverlap(mina, minb, maxa, maxb) {
      var p := if mina <= minb then minb else mina;
      assert InInterval(p, mina, maxa) && InInterval(p, minb, maxb);
    }
  }

  /** The test does not depend on which interval comes first. */
  lemma OverlapSymmetric(mina: nat, minb: nat, maxa: nat, maxb: nat)
    ensures TestOverlap(mina, minb, maxa, maxb) == TestOverlap(minb, mina, maxb, maxa)
  {
  }

  /**
   * A brush: the cells its iterator yields at the build resolution, in order, and the corners
   * `get_min`/`get_max` report, already cast to cell coordinates.
   */
  datatype Brush = Brush(cells: seq<Cell>, lo: Cell, hi: Cell)

  /**
   * The number of chunks along an axis of `w` cells: `(w as f64 / chunk as f64).ceil() as usize`.
   * A zero chunk size divides to infinity, which the cast saturates, or to NaN when `w` is 0 too,
   * which casts to 0.
   */
  function ChunkCount(w: nat, chunk: nat): nat
  {
    if chunk == 0 then (if w == 0 then 0 else U64_MAX)
    else CastU64(Ceil(w as real / chunk as real))
  }

  /** `r` and the product of its integer parts: with `c` positive, `q` bounds `n / c` as `q * c` bounds `n`. */
  lemma DivBounds(n: nat, c: nat, q: int)
    requires c > 0
    ensures (q * c >= n) == ((q as real) >= (n as real) / (c as real))
    ensures ((q - 1) * c < n) == ((q - 1) as real < (n as real) / (c as real))
  {
    var r := (n as real) / (c as real);
    assert r * (c as real) == n as real;
    assert (q * c) as real == (q as real) * (c as real);
    assert ((q - 1) * c) as real == ((q - 1) as real) * (c as real);
  }

  /** For a positive chunk size the count is the integer ceiling of w / chunk. */
  lemma ChunkCountIsCeilDiv(w: nat, chunk: nat)
    requires chunk > 0 && w <= U64_MAX
    ensures ChunkCount(w, chunk) == (w + chunk - 1) / chunk
  {
    var q := (w + chunk - 1) / chunk;
    var r := (w + chunk - 1) % chunk;
    assert w + chunk - 1 == chunk * q + r;
    assert q * chunk >= w && (q - 1) * chunk < w;
    DivBounds(w, chunk, q);
    var n := Ceil(w as real / chunk as real);
    assert n == q;
    if q > 0 {
      MulAtLeast(chunk, q);
    }
  }

  /** The first cell of chunk `i` along an axis: `chunk_x * chunk_size`. */
  function ChunkMin(i: nat, chunk: nat): nat
  {
    i * chunk
  }

  /** One past the last cell of chunk `i`: `(chunk_min + chunk_size).min(world_size)`. */
  function ChunkMax(i: nat, chunk: nat, w: nat): nat
  {
    MinNat(i * chunk + chunk, w)
  }

  /** A chunk the loops visit starts inside the world, so its extent `max - min` does not underflow. */
  lemma ChunkSpanNonEmpty(i: nat, chunk: nat, w: nat)
    requires w <= U64_MAX && i < ChunkCount(w, chunk)
    ensures ChunkMin(i, chunk) <= ChunkMax(i, chunk, w)
    ensures chunk > 0 ==> ChunkMin(i, chunk) < ChunkMax(i, chunk, w)
  {
    if chunk > 0 {
      ChunkCountIsCeilDiv(w, chunk);
      var q := (w + chunk - 1) / chunk;
      assert i <= q - 1;
      MulMono(chunk, i, q - 1);
      assert (w + chunk - 1) - chunk * q < chunk;
    }
  }

  /** Chunks come in order and do not overlap. */
  lemma ChunkSpansDisjoint(i: nat, j: nat, chunk: nat, w: nat)
    requires i < j
    ensures ChunkMax(i, chunk, w) <= ChunkMin(j, chunk)
  {
    MulMono(chunk, i + 1, j);
  }

  /** Every cell of the world lies in the chunk numbered by its quotient by the chunk size. */
  lemma ChunkSpansCover(p: nat, chunk: nat, w: nat)
    requires chunk > 0 && p < w && w <= U64_MAX
    ensures p / chunk < ChunkCount(w, chunk)
    ensures ChunkMin(p / chunk, chunk) <= p < ChunkMax(p / chunk, chunk, w)
  {
    ChunkCountIsCeilDiv(w, chunk);
    var i, r := p / chunk, p % chunk;
    assert p == r + chunk * i;
    assert p + chunk == r + chunk * (i + 1);
    DivUnique(chunk, i + 1, r, (p + chunk) / chunk, (p + chunk) % chunk);
    DivMonotone(p + chunk, w + chunk - 1, chunk);
    assert i * chunk == chunk * i;
  }

  /** Every chunk but the last holds a full `chunk` cells along the axis, and the last ends at the world's edge. */
  lemma OnlyLastChunkShort(i: nat, chunk: nat, w: nat)
    requires chunk > 0 && w <= U64_MAX && i < ChunkCount(w, chunk)
    ensures i + 1 < ChunkCount(w, chunk) ==> ChunkMax(i, chunk, w) - ChunkMin(i, chunk) == chunk
    ensures i + 1 == ChunkCount(w, chunk) ==> ChunkMax(i, chunk, w) == w
  {
    ChunkCountIsCeilDiv(w, chunk);
    var q := (w + chunk - 1) / chunk;
    assert w + chunk - 1 == chunk * q + (w + chunk - 1) % chunk;
    if i + 1 < q {
      MulMono(chunk, i + 2, q);
    } else {
      assert i == q - 1;
    }
  }

  /** The corners of a chunk: `lo` its first cell, `hi` the per-axis `chunk_max` values. */
  datatype ChunkBox = ChunkBox(lo: Cell, hi: Cell)

  predicate ValidBox(b: ChunkBox)
  {
    b.lo.x <= b.hi.x && b.lo.y <= b.hi.y && b.lo.z <= b.hi.z
  }

  /** The number of cells along each axis: `chunk_size_x`, `chunk_size_y`, `chunk_size_z`. */
  function ExtentX(b: ChunkBox): nat requires ValidBox(b) { b.hi.x - b.lo.x }
  function ExtentY(b: ChunkBox): nat requires ValidBox(b) { b.hi.y - b.lo.y }
  function ExtentZ(b: ChunkBox): nat requires ValidBox(b) { b.hi.z - b.lo.z }

  /** The length of the chunk buffer: `chunk_size_z * chunk_size_y * chunk_size_x`. */
  function BoxVolume(b: ChunkBox): nat
    requires ValidBox(b)
  {
    ExtentZ(b) * ExtentY(b) * ExtentX(b)
  }

  /** The box of chunk (cx, cy, cz) of a world of `sx` by `sy` by `sz` cells. */
  function ChunkBoxAt(cx: nat, cy: nat, cz: nat, chunk: nat, sx: nat, sy: nat, sz: nat): ChunkBox
  {
    ChunkBox(Cell(ChunkMin(cx, chunk), ChunkMin(cy, chunk), ChunkMin(cz, chunk)),
             Cell(ChunkMax(cx, chunk, sx), ChunkMax(cy, chunk, sy), ChunkMax(cz, chunk, sz)))
  }

  /** A brush passes the pre-filter when its corners' box meets the chunk's on all three axes. */
  predicate Overlaps(b: ChunkBox, brush: Brush)
  {
    TestOverlap(b.lo.x, brush.lo.x, b.hi.x, brush.hi.x) &&
    TestOverlap(b.lo.y, brush.lo.y, b.hi.y, brush.hi.y) &&
    TestOverlap(b.lo.z, brush.lo.z, b.hi.z, brush.hi.z)
  }

  /**
   * The buffer index the builder computes for cell `c`: None when the cell fails the filter,
   * which accepts each coordinate from `lo` up to and including `hi`, and otherwise the
   * row-major index of the cell's offset from `lo`.
   */
  function LocalIndex(c: Cell, b: ChunkBox): (r: Option<nat>)
    requires ValidBox(b)
    ensures r.Some? <==> (b.lo.x <= c.x <= b.hi.x && b.lo.y <= c.y <= b.hi.y && b.lo.z <= c.z <= b.hi.z)
  {
    if !(b.lo.x <= c.x && b.hi.x >= c.x) then None
    else if !(b.lo.y <= c.y && b.hi.y >= c.y) then None
    else if !(b.lo.z <= c.z && b.hi.z >= c.z) then None
    else
      var subX: nat := c.x - b.lo.x;
      var subY: nat := c.y - b.lo.y;
      var subZ: nat := c.z - b.lo.z;
      Some(subX + subY * ExtentX(b) + subZ * ExtentY(b) * ExtentX(b))
  }

  /**
   * On cells strictly inside the chunk the index is the cell's row-major position in the chunk:
   * it is below the buffer length, and two such cells share an index only if they are the same.
   */
  lemma LocalIndexInside(c: Cell, d: Cell, b: ChunkBox)
    requires ValidBox(b)
    requires b.lo.x <= c.x < b.hi.x && b.lo.y <= c.y < b.hi.y && b.lo.z <= c.z < b.hi.z
    requires b.lo.x <= d.x < b.hi.x && b.lo.y <= d.y < b.hi.y && b.lo.z <= d.z < b.hi.z
    ensures LocalIndex(c, b) == Some(Flatten(c.x - b.lo.x, c.y - b.lo.y, c.z - b.lo.z, ExtentX(b), ExtentY(b)))
    ensures LocalIndex(c, b).value < BoxVolume(b)
    ensures LocalIndex(c, b) == LocalIndex(d, b) ==> c == d
  {
    var nx, ny, nz := ExtentX(b), ExtentY(b), ExtentZ(b);
    LocalIndexIsFlatten(c, b);
    LocalIndexIsFlatten(d, b);
    FlattenBound(c.x - b.lo.x, c.y - b.lo.y, c.z - b.lo.z, nx, ny, nz);
    MulReverse(nx, ny, nz);
    if LocalIndex(c, b) == LocalIndex(d, b) {
      FlattenInjective(c.x - b.lo.x, c.y - b.lo.y, c.z - b.lo.z, d.x - b.lo.x, d.y - b.lo.y, d.z - b.lo.z, nx, ny);
    }
  }

  /** A cell the filter accepts gets the row-major index of its offset from `lo`. */
  lemma LocalIndexIsFlatten(c: Cell, b: ChunkBox)
    requires ValidBox(b)
    requires b.lo.x <= c.x <= b.hi.x && b.lo.y <= c.y <= b.hi.y && b.lo.z <= c.z <= b.hi.z
    ensures LocalIndex(c, b) == Some(Flatten(c.x - b.lo.x, c.y - b.lo.y, c.z - b.lo.z, ExtentX(b), ExtentY(b)))
  {
    var z: nat := c.z - b.lo.z;
    assert z * ExtentY(b) * ExtentX(b) == z * ExtentX(b) * ExtentY(b);
  }

  /**
   * The filter lets the upper face in: a cell with x equal to the chunk's `hi.x`, which belongs to
   * the next chunk, gets the same index as the cell at `lo.x` one row further in y.
   */
  lemma UpperFaceAliases(b: ChunkBox, y: nat, z: nat)
    requires ValidBox(b) && b.lo.y <= y < b.hi.y && b.lo.z <= z <= b.hi.z
    ensures LocalIndex(Cell(b.hi.x, y, z), b).Some?
    ensures LocalIndex(Cell(b.hi.x, y, z), b) == LocalIndex(Cell(b.lo.x, y + 1, z), b)
  {
    var nx := b.hi.x - b.lo.x;
    assert (y + 1 - b.lo.y) * nx == (y - b.lo.y) * nx + nx;
  }

  /** The far corner `hi` passes the filter but its index is past the end of the buffer, so its
      write is dropped. */
  lemma FarCornerDropped(data: seq<Byte>, b: ChunkBox, id: Byte)
    requires ValidBox(b) && |data| == BoxVolume(b)
    ensures LocalIndex(b.hi, b).Some? && LocalIndex(b.hi, b).value >= BoxVolume(b)
    ensures PaintCell(data, b.hi, b, id) == data
  {
  }

  /** One cell of a brush: its id is written at its index when the index is inside the buffer
      (`get_mut`), otherwise nothing changes. */
  function PaintCell(data: seq<Byte>, c: Cell, b: ChunkBox, id: Byte): (r: seq<Byte>)
    requires ValidBox(b)
    ensures |r| == |data|
  {
    match LocalIndex(c, b)
    case Some(k) => if k < |data| then data[k := id] else data
    case None => data
  }

  /** The cells of a brush painted in the order they come. */
  function PaintCells(data: seq<Byte>, cells: seq<Cell>, b: ChunkBox, id: Byte): (r: seq<Byte>)
    requires ValidBox(b)
    ensures |r| == |data|
  {
    if cells == [] then data
    else PaintCell(PaintCells(data, cells[..|cells| - 1], b, id), cells[|cells| - 1], b, id)
  }

  /** The in-buffer indices the cells are written at, in order. */
  function WrittenIndices(cells: seq<Cell>, b: ChunkBox, n: nat): seq<nat>
    requires ValidBox(b)
  {
    if cells == [] then []
    else
      var front := WrittenIndices(cells[..|cells| - 1], b, n);
      match LocalIndex(cells[|cells| - 1], b)
      case Some(k) => if k < n then front + [k] else front
      case None => front
  }

  /** Painting one more cell of a sequence is one more `PaintCell`. */
  lemma PaintCellsStep(data: seq<Byte>, cells: seq<Cell>, k: nat, b: ChunkBox, id: Byte)
    requires ValidBox(b) && k < |cells|
    ensures PaintCells(data, cells[..k + 1], b, id) == PaintCell(PaintCells(data, cells[..k], b, id), cells[k], b, id)
  {
    assert cells[..k + 1][..k] == cells[..k];
  }

  /** After a brush, entry j holds the brush's id exactly when some cell is written at j. */
  lemma {:induction false} PaintCellsAt(data: seq<Byte>, cells: seq<Cell>, b: ChunkBox, id: Byte, j: nat)
    requires ValidBox(b) && j < |data|
    ensures PaintCells(data, cells, b, id)[j] == if j in WrittenIndices(cells, b, |data|) then id else data[j]
  {
    if cells != [] {
      var front := cells[..|cells| - 1];
      PaintCellsAt(data, front, b, id, j);
    }
  }

  /** Everything the builder needs to bake chunks: the brush operations in order, the material ids,
      the chunk size, the world size in cells and the number of chunks along each axis. */
  datatype Plan = Plan(ops: seq<(Material, Brush)>, ids: map<Material, Byte>, chunk: nat,
                       sx: nat, sy: nat, sz: nat, nx: nat, ny: nat, nz: nat)

  /** `n` chunks of size `chunk` along an axis of `w` cells all start inside the world or at its end. */
  predicate AxisFits(n: nat, chunk: nat, w: nat)
  {
    n == 0 || (n - 1) * chunk <= w
  }

  /** Every operation's material has an id (the `expect` on the id lookup succeeds), and the chunk
      counts fit the world. */
  predicate ValidPlan(p: Plan)
  {
    (forall k :: 0 <= k < |p.ops| ==> p.ops[k].0 in p.ids) &&
    AxisFits(p.nx, p.chunk, p.sx) && AxisFits(p.ny, p.chunk, p.sy) && AxisFits(p.nz, p.chunk, p.sz)
  }

  /** The counts `build` computes fit the world. */
  lemma ChunkCountFits(w: nat, chunk: nat)
    requires w <= U64_MAX
    ensures AxisFits(ChunkCount(w, chunk), chunk, w)
  {
    if chunk > 0 && ChunkCount(w, chunk) > 0 {
      ChunkSpanNonEmpty(ChunkCount(w, chunk) - 1, chunk, w);
    }
  }

  /** A chunk along an axis whose count fits starts no later than it ends. */
  lemma AxisSpanValid(i: nat, n: nat, chunk: nat, w: nat)
    requires AxisFits(n, chunk, w) && i < n
    ensures ChunkMin(i, chunk) <= ChunkMax(i, chunk, w)
  {
    MulMono(chunk, i, n - 1);
    assert chunk * i == i * chunk && chunk * (n - 1) == (n - 1) * chunk;
  }

  /** The paint of one operation: skipped when its brush fails the overlap pre-filter. */
  function PaintOp(data: seq<Byte>, op: (Material, Brush), ids: map<Material, Byte>, b: ChunkBox): (r: seq<Byte>)
    requires ValidBox(b) && op.0 in ids
    ensures |r| == |data|
  {
    if Overlaps(b, op.1) then PaintCells(data, op.1.cells, b, ids[op.0]) else data
  }

  /** The operations painted in order. */
  function PaintOps(data: seq<Byte>, ops: seq<(Material, Brush)>, ids: map<Material, Byte>, b: ChunkBox): (r: seq<Byte>)
    requires ValidBox(b) && forall k :: 0 <= k < |ops| ==> ops[k].0 in ids
    ensures |r| == |data|
  {
    if ops == [] then data
    else PaintOp(PaintOps(data, ops[..|ops| - 1], ids, b), ops[|ops| - 1], ids, b)
  }

  /** Painting one more operation is one more `PaintOp`. */
  lemma PaintOpsStep(data: seq<Byte>, ops: seq<(Material, Brush)>, k: nat, ids: map<Material, Byte>, b: ChunkBox)
    requires ValidBox(b) && (forall i :: 0 <= i < |ops| ==> ops[i].0 in ids) && k < |ops|
    ensures PaintOps(data, ops[..k + 1], ids, b) == PaintOp(PaintOps(data, ops[..k], ids, b), ops[k], ids, b)
  {
    assert ops[..k + 1][..k] == ops[..k];
  }

  /** Operation `op` writes entry j of a buffer of length n: it passes the pre-filter and one of its cells lands on j. */
  predicate Reaches(op: (Material, Brush), b: ChunkBox, n: nat, j: nat)
    requires ValidBox(b)
  {
    Overlaps(b, op.1) && j in WrittenIndices(op.1.cells, b, n)
  }

  /** The position of the last operation that writes entry j, if any. */
  function LastWriter(ops: seq<(Material, Brush)>, b: ChunkBox, n: nat, j: nat): (r: Option<nat>)
    requires ValidBox(b)
    ensures r.None? <==> forall k :: 0 <= k < |ops| ==> !Reaches(ops[k], b, n, j)
    ensures r.Some? ==> r.value < |ops| && Reaches(ops[r.value], b, n, j) &&
                        forall k :: r.value < k < |ops| ==> !Reaches(ops[k], b, n, j)
  {
    if ops == [] then None
    else if Reaches(ops[|ops| - 1], b, n, j) then Some(|ops| - 1)
    else
      var r := LastWriter(ops[..|ops| - 1], b, n, j);
      assert forall k :: 0 <= k < |ops| - 1 ==> ops[..|ops| - 1][k] == ops[k];
      r
  }

  /** The last write wins: entry j ends with the id of the last operation that writes it, or keeps
      its value when none does; an operation failing the pre-filter writes nothing. */
  lemma {:induction false} LastWriteWins(data: seq<Byte>, ops: seq<(Material, Brush)>, ids: map<Material, Byte>,
                                         b: ChunkBox, j: nat)
    requires ValidBox(b) && (forall k :: 0 <= k < |ops| ==> ops[k].0 in ids) && j < |data|
    ensures PaintOps(data, ops, ids, b)[j]
         == match LastWriter(ops, b, |data|, j)
            case None => data[j]
            case Some(k) => ids[ops[k].0]
  {
    if ops != [] {
      var front := ops[..|ops| - 1];
      var op := ops[|ops| - 1];
      LastWriteWins(data, front, ids, b, j);
      var d := PaintOps(data, front, ids, b);
      if Overlaps(b, op.1) {
        PaintCellsAt(d, op.1.cells, b, ids[op.0], j);
      }
      if !Reaches(op, b, |data|, j) {
        assert LastWriter(ops, b, |data|, j) == LastWriter(front, b, |data|, j);
        match LastWriter(front, b, |data|, j)
        case None =>
        case Some(k) => assert ops[k] == front[k];
      }
    }
  }

  /** A chunk's buffer: zero (the blank material's id) everywhere, then painted with every operation. */
  function ChunkData(p: Plan, b: ChunkBox): (r: seq<Byte>)
    requires ValidPlan(p) && ValidBox(b)
    ensures |r| == BoxVolume(b)
  {
    PaintOps(seq(BoxVolume(b), _ => 0), p.ops, p.ids, b)
  }

  /** Entry j of a chunk holds the id of the last operation writing it, and 0 when none does. */
  lemma ChunkDataAt(p: Plan, b: ChunkBox, j: nat)
    requires ValidPlan(p) && ValidBox(b) && j < BoxVolume(b)
    ensures ChunkData(p, b)[j]
         == match LastWriter(p.ops, b, BoxVolume(b), j)
            case None => 0
            case Some(k) => p.ids[p.ops[k].0]
  {
    LastWriteWins(seq(BoxVolume(b), _ => 0), p.ops, p.ids, b, j);
  }

  /** The box of a chunk the loops visit is well formed. */
  lemma ChunkBoxValid(p: Plan, cx: nat, cy: nat, cz: nat)
    requires ValidPlan(p) && cx < p.nx && cy < p.ny && cz < p.nz
    ensures ValidBox(ChunkBoxAt(cx, cy, cz, p.chunk, p.sx, p.sy, p.sz))
  {
    AxisSpanValid(cx, p.nx, p.chunk, p.sx);
    AxisSpanValid(cy, p.ny, p.chunk, p.sy);
    AxisSpanValid(cz, p.nz, p.chunk, p.sz);
  }

  /** What the builder emits for chunk (cx, cy, cz): the run-length encoding of its buffer. */
  function ChunkStream(p: Plan, cx: nat, cy: nat, cz: nat): seq<Byte>
    requires ValidPlan(p) && cx < p.nx && cy < p.ny && cz < p.nz
  {
    ChunkBoxValid(p, cx, cy, cz);
    ByteStream.Rle(ChunkData(p, ChunkBoxAt(cx, cy, cz, p.chunk, p.sx, p.sy, p.sz)))
  }

  /**
   * The loop over one brush's cells: each cell that passes the inclusive filter is written at its
   * index, unless that index is past the end of the buffer.
   */
  method PaintBrush(data: array<Byte>, cells: seq<Cell>, b: ChunkBox, id: Byte)
    requires ValidBox(b)
    modifies data
    ensures data[..] == PaintCells(old(data[..]), cells, b, id)
  {
    for k := 0 to |cells|
      invariant data[..] == PaintCells(old(data[..]), cells[..k], b, id)
    {
      var c := cells[k];
      PaintCellsStep(old(data[..]), cells, k, b, id);
      if b.lo.x <= c.x && b.hi.x >= c.x && b.lo.y <= c.y && b.hi.y >= c.y && b.lo.z <= c.z && b.hi.z >= c.z {
        var subX := c.x - b.lo.x;
        var subY := c.y - b.lo.y;
        var subZ := c.z - b.lo.z;
        var ind := subX + subY * (b.hi.x - b.lo.x) + subZ * (b.hi.y - b.lo.y) * (b.hi.x - b.lo.x);
        if ind < data.Length {
          data[ind] := id;
        }
      }
    }
    assert cells[..|cells|] == cells;
  }

  /**
   * The body of the chunk loops for chunk (cx, cy, cz): compute the chunk's corners, fill a zeroed
   * buffer with every brush that passes the overlap test, and run-length encode it.
   */
  method BakeChunk(p: Plan, cx: nat, cy: nat, cz: nat) returns (stream: seq<Byte>)
    requires ValidPlan(p) && cx < p.nx && cy < p.ny && cz < p.nz
    ensures stream == ChunkStream(p, cx, cy, cz)
  {
    ChunkBoxValid(p, cx, cy, cz);
    var chunkMinX := cx * p.chunk;
    var chunkMaxX := MinNat(chunkMinX + p.chunk, p.sx);
    var chunkMinY := cy * p.chunk;
    var chunkMaxY := MinNat(chunkMinY + p.chunk, p.sy);
    var chunkMinZ := cz * p.chunk;
    var chunkMaxZ := MinNat(chunkMinZ + p.chunk, p.sz);
    var b := ChunkBox(Cell(chunkMinX, chunkMinY, chunkMinZ), Cell(chunkMaxX, chunkMaxY, chunkMaxZ));
    assert b == ChunkBoxAt(cx, cy, cz, p.chunk, p.sx, p.sy, p.sz);

    var chunkSizeX: nat := chunkMaxX - chunkMinX;
    var chunkSizeY: nat := chunkMaxY - chunkMinY;
    var chunkSizeZ: nat := chunkMaxZ - chunkMinZ;
    assert chunkSizeZ * chunkSizeY * chunkSizeX == BoxVolume(b);
    var chunkData := new Byte[chunkSizeZ * chunkSizeY * chunkSizeX](_ => 0);
    PaintChunk(p, b, chunkData);
    stream := ByteStream.EncodeByteStream(chunkData[..]);
  }

  /** The brush loop of one chunk, over a buffer that starts zeroed. */
  method PaintChunk(p: Plan, b: ChunkBox, chunkData: array<Byte>)
    requires ValidPlan(p) && ValidBox(b)
    requires chunkData[..] == seq(BoxVolume(b), _ => 0)
    modifies chunkData
    ensures chunkData[..] == ChunkData(p, b)
  {
    ghost var zeros := chunkData[..];
    for k := 0 to |p.ops|
      invariant chunkData[..] == PaintOps(zeros, p.ops[..k], p.ids, b)
    {
      var (mat, brush) := p.ops[k];
      var matId := p.ids[mat];
      PaintOpsStep(zeros, p.ops, k, p.ids, b);
      var isOverlap := TestOverlap(b.lo.x, brush.lo.x, b.hi.x, brush.hi.x)
                    && TestOverlap(b.lo.y, brush.lo.y, b.hi.y, brush.hi.y)
                    && TestOverlap(b.lo.z, brush.lo.z, b.hi.z, brush.hi.z);
      if isOverlap {
        PaintBrush(chunkData, brush.cells, b, matId);
      }
    }
    assert p.ops[..|p.ops|] == p.ops;
  }
}
