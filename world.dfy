/**
 * `SimWorldBuilder` and `SimWorld` (`src/world.rs`): the builder records brush operations and
 * bakes them into a world whose chunks are run-length encoded material-id buffers.
 */
module World {
  import opened Numeric
  import opened Indexing
  import opened Materials
  import opened MaterialTable
  import opened Chunks
  import opened NestedLoops
  import ByteStream

  /**
   * A baked world: its size in cells, the cell side, the material table, the chunk size, and the
   * encoded chunks in the order the builder emits them (the file's chunk section before base64).
   */
  datatype SimWorld = SimWorld(
    sizeX: nat, sizeY: nat, sizeZ: nat,
    cellSize: real,
    materialMap: seq<Material>,
    chunkSize: nat,
    chunks: seq<seq<Byte>>)

  /** The materials of the brush operations, in order. */
  function MaterialsOf(ops: seq<(Material, Brush)>): (mats: seq<Material>)
    ensures |mats| == |ops| && forall k :: 0 <= k < |ops| ==> mats[k] == ops[k].0
  {
    seq(|ops|, k requires 0 <= k < |ops| => ops[k].0)
  }

  /** The encoded chunk at (cx, cy, cz) when it is one of the plan's chunks. */
  function StreamOf(p: Plan): (nat, nat, nat) -> seq<Byte>
  {
    (cx: nat, cy: nat, cz: nat) =>
      if ValidPlan(p) && cx < p.nx && cy < p.ny && cz < p.nz then ChunkStream(p, cx, cy, cz) else []
  }

  /** Every chunk of the world, x outermost and z innermost. */
  function AllChunks(p: Plan): (r: seq<seq<Byte>>)
    ensures |r| == p.nx * (p.nz * p.ny)
  {
    Block(StreamOf(p), p.ny, p.nz, p.nx)
  }

  /**
   * The chunks are emitted with x outermost and z innermost: chunk (cx, cy, cz) is at position
   * cz + cy * nz + cx * nz * ny, and there are nx * ny * nz of them.
   */
  lemma ChunkOrder(p: Plan, cx: nat, cy: nat, cz: nat)
    requires ValidPlan(p) && cx < p.nx && cy < p.ny && cz < p.nz
    ensures |AllChunks(p)| == p.nx * p.ny * p.nz
    ensures Flatten(cz, cy, cx, p.nz, p.ny) < |AllChunks(p)|
    ensures AllChunks(p)[Flatten(cz, cy, cx, p.nz, p.ny)] == ChunkStream(p, cx, cy, cz)
  {
    BlockAtFlat(StreamOf(p), p.ny, p.nz, p.nx, cx, cy, cz);
  }

  /** A chunk that no brush passes the overlap test for stays blank, and its encoding is that of
      its length in zeros. */
  lemma BlankChunkStream(p: Plan, cx: nat, cy: nat, cz: nat)
    requires ValidPlan(p) && cx < p.nx && cy < p.ny && cz < p.nz
    requires forall k :: 0 <= k < |p.ops| ==> !Overlaps(ChunkBoxAt(cx, cy, cz, p.chunk, p.sx, p.sy, p.sz), p.ops[k].1)
    ensures ValidBox(ChunkBoxAt(cx, cy, cz, p.chunk, p.sx, p.sy, p.sz))
    ensures var n := BoxVolume(ChunkBoxAt(cx, cy, cz, p.chunk, p.sx, p.sy, p.sz));
            ChunkStream(p, cx, cy, cz) == ByteStream.FullRuns(n / 255, 0) + (if n % 255 == 0 then [] else [n % 255, 0])
  {
    ChunkBoxValid(p, cx, cy, cz);
    var b := ChunkBoxAt(cx, cy, cz, p.chunk, p.sx, p.sy, p.sz);
    var n := BoxVolume(b);
    var data := ChunkData(p, b);
    forall j | 0 <= j < n
      ensures data[j] == 0
    {
      ChunkDataAt(p, b, j);
    }
    assert data == ByteStream.Copies(n, 0);
    ByteStream.RleOfCopies(n, 0);
  }

  /** The innermost chunk loop: chunks (cx, cy, 0) .. pushed after `chunks0`. */
  method BakeRow(p: Plan, cx: nat, cy: nat, chunks0: seq<seq<Byte>>) returns (chunks: seq<seq<Byte>>)
    requires ValidPlan(p) && cx < p.nx && cy < p.ny
    ensures chunks == chunks0 + Row(StreamOf(p), cx, cy, p.nz)
  {
    chunks := chunks0;
    for cz := 0 to p.nz
      invariant chunks == chunks0 + Row(StreamOf(p), cx, cy, cz)
    {
      var stream := BakeChunk(p, cx, cy, cz);
      assert stream == StreamOf(p)(cx, cy, cz);
      chunks := chunks + [stream];
    }
  }

  /** The middle chunk loop for the x-slab `cx`. */
  method BakeSlab(p: Plan, cx: nat, chunks0: seq<seq<Byte>>) returns (chunks: seq<seq<Byte>>)
    requires ValidPlan(p) && cx < p.nx
    ensures chunks == chunks0 + Slab(StreamOf(p), p.nz, cx, p.ny)
  {
    chunks := chunks0;
    for cy := 0 to p.ny
      invariant chunks == chunks0 + Slab(StreamOf(p), p.nz, cx, cy)
    {
      chunks := BakeRow(p, cx, cy, chunks);
      SlabStep(StreamOf(p), p.nz, cx, cy, chunks0);
    }
  }

  /** The outer chunk loop: every chunk, in order. */
  method BakeChunks(p: Plan) returns (chunks: seq<seq<Byte>>)
    requires ValidPlan(p)
    ensures chunks == AllChunks(p)
  {
    chunks := [];
    for cx := 0 to p.nx
      invariant chunks == Block(StreamOf(p), p.ny, p.nz, cx)
    {
      chunks := BakeSlab(p, cx, chunks);
    }
  }

  /** Every material of the operations has an id in the table built from them. */
  lemma DedupCoversOps(ops: seq<(Material, Brush)>)
    ensures forall k :: 0 <= k < |ops| ==> ops[k].0 in Dedup(MaterialsOf(ops)).ids
  {
    var mats := MaterialsOf(ops);
    DedupContents(mats);
    DedupIds(mats);
    forall k | 0 <= k < |ops|
      ensures ops[k].0 in Dedup(mats).ids
    {
      assert mats[k] == ops[k].0;
    }
  }

  /** The plan `build` bakes chunks with. */
  function BuildPlan(ops: seq<(Material, Brush)>, sx: nat, sy: nat, sz: nat, chunkSize: nat): Plan
  {
    Plan(ops, Dedup(MaterialsOf(ops)).ids, chunkSize, sx, sy, sz,
         ChunkCount(sx, chunkSize), ChunkCount(sy, chunkSize), ChunkCount(sz, chunkSize))
  }

  /** A builder: the world's extent in meters and the brush operations in the order they were added. */
  class SimWorldBuilder {
    var xSize: real
    var ySize: real
    var zSize: real
    var brushOperations: seq<(Material, Brush)>

    /** `SimWorldBuilder::new`: the given extent and no operations. */
    constructor(xSize: real, ySize: real, zSize: real)
      ensures this.xSize == xSize && this.ySize == ySize && this.zSize == zSize
      ensures brushOperations == []
    {
      this.xSize := xSize;
      this.ySize := ySize;
      this.zSize := zSize;
      brushOperations := [];
    }

    /** `with_material`: the operation is appended; the extent is unchanged. */
    method WithMaterial(material: Material, brush: Brush)
      modifies this
      ensures brushOperations == old(brushOperations) + [(material, brush)]
      ensures xSize == old(xSize) && ySize == old(ySize) && zSize == old(zSize)
    {
      brushOperations := brushOperations + [(material, brush)];
    }

    /**
     * `build` without the file output: the world size rounds each extent divided by the
     * resolution up, the material table is that of the operations' materials, and the chunks are
     * every chunk's encoded buffer in loop order, each painted with the table's ids.
     */
    method Build(resolution: real, chunkSize: nat) returns (world: SimWorld)
      requires resolution != 0.0
      ensures world.sizeX == CellCountCeil(xSize, resolution)
      ensures world.sizeY == CellCountCeil(ySize, resolution)
      ensures world.sizeZ == CellCountCeil(zSize, resolution)
      ensures world.cellSize == resolution && world.chunkSize == chunkSize
      ensures world.materialMap == Dedup(MaterialsOf(brushOperations)).table
      ensures ValidPlan(BuildPlan(brushOperations, world.sizeX, world.sizeY, world.sizeZ, chunkSize))
      ensures world.chunks == AllChunks(BuildPlan(brushOperations, world.sizeX, world.sizeY, world.sizeZ, chunkSize))
    {
      var worldSizeX := CellCountCeil(xSize, resolution);
      var worldSizeY := CellCountCeil(ySize, resolution);
      var worldSizeZ := CellCountCeil(zSize, resolution);

      var materialMap, materialHash := DedupMaterials(MaterialsOf(brushOperations));

      var chunkCountX := ChunkCount(worldSizeX, chunkSize);
      var chunkCountY := ChunkCount(worldSizeY, chunkSize);
      var chunkCountZ := ChunkCount(worldSizeZ, chunkSize);

      DedupCoversOps(brushOperations);
      ChunkCountFits(worldSizeX, chunkSize);
      ChunkCountFits(worldSizeY, chunkSize);
      ChunkCountFits(worldSizeZ, chunkSize);
      var p := Plan(brushOperations, materialHash, chunkSize, worldSizeX, worldSizeY, worldSizeZ,
                    chunkCountX, chunkCountY, chunkCountZ);
      assert p == BuildPlan(brushOperations, worldSizeX, worldSizeY, worldSizeZ, chunkSize);
      var chunks := BakeChunks(p);

      world := SimWorld(worldSizeX, worldSizeY, worldSizeZ, resolution, materialMap, chunkSize, chunks);
    }
  }
}
