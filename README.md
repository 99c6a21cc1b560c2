# thermal_rs in Dafny

A Dafny model of the sequential core of `thermal_rs`. The crate is a voxel heat-simulation
library: a world is a box of cubic cells, each made of one material. Brushes paint materials
and initial conditions over regions of cells. A builder bakes a world into chunk buffers, and
those buffers are run-length encoded. A runner advances a per-cell energy state in sub-steps.

The model covers these modules:

- **`Wrappers`** — `Option` and `Result`.
- **`Numeric`** — bytes.
  - `floor` and `ceil` over reals.
  - The saturating Rust `as u64` cast of a float.
  - `f64::min`.
  - The two cell-count roundings used by the crate: `SimulationState::new` and `build` round
    up, while `ThermalSimulation::new` rounds down.
- **`Indexing`** — the row-major flattening `x + y·nx + z·nx·ny` shared by:
  - `cell_to_index`;
  - `pos_to_index`;
  - the chunk-local index;
  - the iterator's rank.

  It also proves flattening injective and bounded.
- **`Materials`** — `Material` with its derived field-wise equality, and `Material::blank`.
- **`Volume`** — `AABBVolume` and its cell iterator, modelled as:
  - a class `AABBVolumeIter` with the counters `x`, `y`, `z` that `next` updates in place;
  - a reference sequence `Yields` of the offsets the counters pass through.
- **`Simulation`** — `SimulationState`, a class holding the four per-cell vectors.
  - `cell_to_index` is a function.
  - `set_material`, `set_temperature` and `add_energy` are methods. Each drives the iterator
    in a loop and rewrites the vectors in place.
  - Each operation is proved against a reference function `Paint`.
  - Lemmas state what `Paint` does to every entry.
- **`Simulate`** — `ThermalSimulation::new`.
- **`ByteStream`** — `encode_byte_stream` as a loop over the input.
  - It is proved equal to a run-based reference `Rle`.
  - Lemmas prove what `Rle` does and does not preserve.
- **`MaterialTable`** — the material loop of `build`, proved against a reference `Dedup`:
  - a linear search;
  - a push onto `material_map`;
  - an id insert into `material_hash`.
- **`Chunks`** — the rest of `build`'s arithmetic:
  - the chunk counts and bounds;
  - the `test_overlap` pre-filter;
  - the inclusive cell filter and the local index formula;
  - painting into a chunk buffer held in an `array`;
  - last-write-wins over the brush operations.
- **`NestedLoops`** — the sequence built by three nested loops with x outermost and z
  innermost. It is shared by the chunk loops of `build` and the job loops of
  `advance_world_state`.
- **`World`** — the builder class `SimWorldBuilder` (`new`, `with_material`, `build`) and the
  baked `SimWorld`.
- **`Threaded`** — the sequential parts of `runner/threaded.rs`:
  - the validity guard and sub-step loop of `advance_simulation`;
  - the zeroed delta buffer of `advance_world_state`;
  - its per-axis chunk counts and remainders;
  - its job list;
  - `pos_to_index`.

  The physics of one sub-step is a function parameter `step`, because `get_energy_flow` has
  no code.

Three quirks of the code are reproduced as written, each with lemmas that make it visible:

- **The iterator never yields its origin.** `next` advances the counters before yielding. It
  therefore yields the row-major successors 1..N of the origin offset (0, 0, 0), where
  N = (len_x+1)(len_y+1)(len_z+1). The last of them is (0, 0, len_z+1), which lies outside the
  box. This is `LastYieldLeavesBox`.
- **The chunk cell filter is inclusive.** It accepts coordinates equal to `chunk_max`. Such a
  cell's index may alias another cell of the chunk (`UpperFaceAliases`), or fall past the
  buffer's end, where `get_mut` drops the write (`FarCornerDropped`).
- **The RLE encoder loses bytes.** A byte that differs from the open run closes that run but
  is not counted itself, so there is no general round trip (`RleIsLossy`, `RleCounts`).

Behaviour of the code worth knowing:

- **Iterator origin.** The iterator's origin is `floor(min)` on each axis. It is not divided by
  the cell size (src/volume.rs:43-45).
- **Iterated cells.** The iterator yields the successor cells described above. It skips the
  origin and ends one layer past the box (src/volume.rs:70-91).
- **No material limit.** `build` checks no limit on the number of materials. The
  `(len - 1) as u8` id wraps modulo 256 (src/world.rs:84). The id properties are stated for
  tables of at most 256 entries.
- **Round trips.** The chunk encoding round-trips for a run of one byte of any length
  (`RleOfCopiesRoundTrip`), and for any input in which no byte is dropped (`RleCounts`)
  (src/world.rs:282-316).
- **Timestep.** `advance_simulation` does not check the timestep. With time to advance and a
  timestep of zero or less, its loop never ends (src/runner/threaded.rs:49-61). The model
  therefore asks for a positive timestep in that case only.
- **Sub-steps.** The loop subtracts a whole timestep per pass and clamps the step it passes on
  to `min(timestep, remaining)` (src/runner/threaded.rs:55, 60). It takes ceil(t / timestep)
  sub-steps, and together they sum to the time advanced.

## Model

| member | source | states |
|---|---|---|
| Numeric.CellCountCeil | src/world.rs:60-62 | the saturating `u64` cast of ceil(size / resolution): zero for a non-positive quotient, otherwise the least integer not below it, never above u64::MAX |
| Numeric.CellCountFloor | src/simulate.rs:26-28 | the saturating `u64` cast of floor(size / cell_size): zero for a negative quotient, otherwise the greatest integer not above it, never above u64::MAX |
| Numeric.MinReal | src/runner/threaded.rs:55 | `timestep.min(remaining_time)` is one of the two and below both |
| Indexing.FlattenInjective | src/simulation.rs:106 | row-major flattening of in-range coordinates is injective |
| Indexing.FlattenBound | src/simulation.rs:106 | the row-major index of an in-range cell is below the cell total |
| Materials.Blank | src/material.rs:15-21 | the blank material has density 1.0, specific heat 1.0 and conductivity 0.0 (an insulator) |
| Materials.EqualityIsFieldwise | src/material.rs:1-11 | two materials are equal exactly when density, specific heat and conductivity are all equal |
| Simulate.NewThermalSimulation | src/simulate.rs:25-39 | cell counts are the floors of size / cell_size; the material table is exactly [blank]; energy and materials each hold one zero per cell; every material index names a table entry |
| Simulate.BlankGrid | src/simulate.rs:30-38 | the struct built from given counts has the blank table and one zero energy and one zero material index per cell |
| Simulate.NewSimulationIsBlank | src/simulate.rs:35-37 | every cell of a new simulation is made of the blank material and holds zero energy |
| Volume.Advance | src/volume.rs:75-84 | one counter update keeps x within len_x and y within len_y; z either stays or grows by one with x and y reset to 0 |
| Volume.AdvanceRank | src/volume.rs:75-84 | the update with its two carries raises the row-major rank of the counters by exactly one |
| Volume.RankBelowCount | src/volume.rs:71-73 | a reachable counter state has rank at most N, and rank N exactly when z is past len_z, which is when `next` returns None |
| Volume.YieldsFromRanks | src/volume.rs:70-91 | from any reachable state the yields are the reachable states of ranks r+1 .. N, so their number is N minus the current rank |
| Volume.YieldsAreSuccessorRanks | src/volume.rs:70-91 | a fresh iterator yields exactly N = (len_x+1)(len_y+1)(len_z+1) offsets, the k-th having rank k+1 |
| Volume.YieldsDistinctWithoutOrigin | src/volume.rs:75-90 | the yielded offsets contain no duplicates and never contain (0, 0, 0) |
| Volume.LastYieldLeavesBox | src/volume.rs:82-90 | the last offset yielded is (0, 0, len_z+1), one layer past the box |
| Volume.YieldsFromChain | src/volume.rs:70-91 | the yields are empty exactly when z is past len_z; each is the counter update of the one before; every x is within len_x and every y within len_y; z passes len_z only at the last |
| Volume.TranslateDistinct | src/volume.rs:86-90 | distinct offsets give distinct cells |
| Volume.CellSeqDistinct | src/volume.rs:41-91 | the cells `cell_iter` yields for a box contain no duplicates |
| Volume.AABBVolumeIter.constructor | src/volume.rs:42-52 | the iterator starts with counters 0, 0, 0 at the given origin and lengths, and has yielded nothing of its yield sequence |
| Volume.AABBVolumeIter.Next | src/volume.rs:70-91 | returns None exactly when all N cells have been yielded, and then keeps returning None; otherwise returns the next cell of the yield sequence in order |
| Volume.CellIter | src/volume.rs:41-53 | `cell_iter` returns a fresh iterator whose yields are the origin `floor(min)` plus the successor offsets for lengths `ceil((max - min) / cell_size)` |
| Simulation.SimulationState.constructor | src/simulation.rs:28-49 | cell counts are the ceilings of size / cell_size; the four vectors each hold one 0.0 per cell |
| Simulation.SimulationState.CellToIndex | src/simulation.rs:96-107 | None exactly when some coordinate is at or past its axis count; otherwise x + y·cx + z·cx·cy, below the cell total |
| Simulation.SimulationState.SetCellMaterial | src/simulation.rs:54-64 | one cell's material write: the three material vectors take the material's values at the cell's index if any; energy is unchanged |
| Simulation.SimulationState.SetMaterial | src/simulation.rs:52-66 | density, specific heat and conductivity are painted with the material over the cells the volume yields; energy, lengths and geometry are unchanged |
| Simulation.SimulationState.SetMaterialCells | src/simulation.rs:53-65 | the loop over the iterator paints the three material vectors over exactly the iterator's yield sequence |
| Simulation.SimulationState.SetCellTemperature | src/simulation.rs:71-80 | one cell's energy becomes temperature · density · cell_size³ · specific heat from that cell's own values; nothing else changes |
| Simulation.SimulationState.SetTemperature | src/simulation.rs:69-82 | energy is painted with temperature · mass · specific heat over the yielded cells; the material vectors, lengths and geometry are unchanged |
| Simulation.SimulationState.SetTemperatureCells | src/simulation.rs:70-81 | the loop over the iterator applies the per-cell energy write to exactly the iterator's yield sequence |
| Simulation.SimulationState.AddCellEnergy | src/simulation.rs:87-91 | the amount is added to the energy at the cell's index if any; nothing else changes |
| Simulation.SimulationState.AddEnergy | src/simulation.rs:85-93 | energy is painted additively over the yielded cells; only energy changes |
| Simulation.SimulationState.AddEnergyCells | src/simulation.rs:86-92 | the loop over the iterator adds the amount once per yielded cell, in yield order |
| Simulation.GridIndex | src/simulation.rs:96-107 | the bounds-checked index is None exactly when a coordinate is out of its axis |
| Simulation.GridIndexBound | src/simulation.rs:106 | an index the bounds check lets through is below nx·ny·nz |
| Simulation.GridIndexInjective | src/simulation.rs:106 | two in-range cells with the same index are the same cell |
| Simulation.PaintCell | src/simulation.rs:87-91 | one write keeps the vector's length, and a cell outside the grid leaves the vector unchanged |
| Simulation.Paint | src/simulation.rs:86-92 | painting a sequence of cells keeps the vector's length |
| Simulation.PaintOverwrites | src/simulation.rs:52-82 | after an overwriting paint, entry j holds the written value exactly when j is the index of some yielded in-bounds cell, and its old value otherwise |
| Simulation.PaintAdds | src/simulation.rs:85-93 | after an adding paint, entry j has gained the amount once for every yielded in-bounds cell whose index is j |
| Simulation.InBoundsIndicesDistinct | src/simulation.rs:96-107 | distinct cells have distinct in-bounds indices |
| Simulation.AddEnergyOncePerCell | src/simulation.rs:85-93 | `add_energy` adds the amount exactly once to each in-bounds cell of the volume and leaves every other cell's energy alone |
| ByteStream.EncodeByteStream | src/world.rs:282-316 | the encoder's output is exactly the run-based reference encoding `Rle` of its input |
| ByteStream.EncodeByte | src/world.rs:288-309 | one pass of the loop body keeps the encoder's state in step with the reference encoding |
| ByteStream.RleIsPairStream | src/world.rs:294-313 | the output is a sequence of (count, value) pairs, every count in 1..255 and every value a byte of the input |
| ByteStream.RleFromFullRun | src/world.rs:302-307 | 255 equal bytes close a full pair (255, b) and encoding resumes after them |
| ByteStream.RleFromClosingByte | src/world.rs:294-301 | a run of n < 255 bytes followed by a different byte emits (n, b) and skips that byte uncounted |
| ByteStream.RleFromLastRun | src/world.rs:310-313 | a final open run of n bytes emits (n, b) |
| ByteStream.RleOfCopies | src/world.rs:294-313 | n copies of b encode to ⌊n/255⌋ pairs (255, b) followed by (n mod 255, b) when that is nonzero |
| ByteStream.RleOfCopiesRoundTrip | src/world.rs:294-313 | expanding the encoding of n copies of b gives back the n copies |
| ByteStream.RleCounts | src/world.rs:294-313 | the counts sum to the input length minus the dropped closing bytes; with none dropped, expanding the encoding gives back the input |
| ByteStream.RleIsLossy | src/world.rs:294-301 | [0, 1] encodes to [1, 0]: the 1 is dropped and expansion gives [0] |
| MaterialTable.Dedup | src/world.rs:64-86 | the table starts with the blank material |
| MaterialTable.DedupContents | src/world.rs:64-86 | the table holds the blank material and every painted material, and nothing else |
| MaterialTable.DedupDistinct | src/world.rs:70-86 | no material appears twice in the table |
| MaterialTable.DedupOrder | src/world.rs:70-86 | the table lists materials in order of first appearance, after the blank one |
| MaterialTable.DedupIds | src/world.rs:67-84 | the ids are keyed by exactly the table's materials; the id of the material at position i is i mod 256 |
| MaterialTable.DedupIdsArePositions | src/world.rs:136-138 | with at most 256 materials every id is its material's position in the table, and every material has an id |
| MaterialTable.FindMaterial | src/world.rs:71-81 | the search finds the first position of the material, or None exactly when it is not in the table |
| MaterialTable.DedupMaterials | src/world.rs:64-86 | the loop builds exactly the reference table and ids |
| Chunks.OverlapIffCommonPoint | src/world.rs:278-280 | for min ≤ max, `test_overlap` holds exactly when the closed intervals [mina, maxa] and [minb, maxb] share a point |
| Chunks.OverlapSymmetric | src/world.rs:278-280 | swapping the two intervals does not change `test_overlap` |
| Chunks.ChunkCountIsCeilDiv | src/world.rs:110-112 | the chunk count per axis is ceil(world / chunk_size) |
| Chunks.ChunkSpanNonEmpty | src/world.rs:118-123 | every chunk the loops visit starts before it ends |
| Chunks.ChunkSpansDisjoint | src/world.rs:118-123 | chunk i ends no later than a later chunk j starts |
| Chunks.ChunkSpansCover | src/world.rs:118-123 | each cell p of the axis lies in chunk p / chunk_size, and that chunk is one the loops visit |
| Chunks.OnlyLastChunkShort | src/world.rs:118-127 | every chunk but the last spans exactly chunk_size cells, and the last ends at the world's edge |
| Chunks.ChunkCountFits | src/world.rs:110-123 | the chunk counts `build` computes put every visited chunk inside the world |
| Chunks.LocalIndex | src/world.rs:166-182 | a cell gets an index exactly when each coordinate is between the chunk's min and max, max included |
| Chunks.LocalIndexInside | src/world.rs:176-182 | for cells strictly inside the chunk the index is the row-major offset, below the buffer length, and distinct cells get distinct indices |
| Chunks.UpperFaceAliases | src/world.rs:166-182 | a cell on the chunk's max x face shares its index with the first cell of the next row |
| Chunks.FarCornerDropped | src/world.rs:183-185 | the max corner passes the filter, but its index is past the buffer, so its write is dropped |
| Chunks.PaintCellsAt | src/world.rs:165-186 | after a brush's cells are painted, entry j holds the id exactly when some filtered cell's index is j, and keeps its value otherwise |
| Chunks.LastWriter | src/world.rs:135-187 | names the last operation that passes the pre-filter and has a cell landing on entry j, or None when no operation does |
| Chunks.LastWriteWins | src/world.rs:135-187 | after all operations, entry j holds the id of the last operation writing it, or keeps its value if none does; operations failing the pre-filter write nothing |
| Chunks.ChunkData | src/world.rs:129-132 | a chunk buffer has exactly size_x·size_y·size_z entries |
| Chunks.ChunkDataAt | src/world.rs:129-187 | each entry of a chunk buffer is 0 (blank) unless some operation reaches it, and then it is the last such operation's id |
| Chunks.PaintBrush | src/world.rs:165-186 | the in-place loop over one brush's cells leaves the buffer equal to the reference painting |
| Chunks.PaintChunk | src/world.rs:135-187 | painting a zeroed buffer with every operation, in order, yields the reference chunk buffer |
| Chunks.BakeChunk | src/world.rs:118-194 | a chunk's emitted bytes are the run-length encoding of its painted buffer |
| NestedLoops.BlockAtFlat | src/world.rs:115-117 | three nested loops, x outermost and z innermost, put the value for (x, y, z) at position z + y·nz + x·nz·ny, and there are nx·ny·nz values |
| World.ChunkOrder | src/world.rs:115-117 | the world holds nx·ny·nz chunks, and chunk (cx, cy, cz) is at position cz + cy·nz + cx·nz·ny |
| World.BlankChunkStream | src/world.rs:129-194 | a chunk that no brush overlaps encodes as the all-zero buffer of its length |
| World.BakeRow | src/world.rs:117-198 | the innermost chunk loop appends the chunks (cx, cy, 0 .. nz) in order |
| World.BakeSlab | src/world.rs:116-199 | the middle loop appends the chunks of slab cx in order |
| World.BakeChunks | src/world.rs:115-200 | the outer loop produces every chunk's encoding in loop order |
| World.DedupCoversOps | src/world.rs:136-138 | every operation's material has an id, so the lookup's `expect` never fails |
| World.SimWorldBuilder.constructor | src/world.rs:37-44 | a new builder has the given extent and no operations |
| World.SimWorldBuilder.WithMaterial | src/world.rs:47-50 | the operation is appended and the extent is unchanged |
| World.SimWorldBuilder.Build | src/world.rs:53-211 | the world size is the ceiling of extent / resolution; the material map is the deduplicated table; the chunks are every chunk's encoded painted buffer in loop order |
| Threaded.StepsLeftDecreases | src/runner/threaded.rs:49-61 | with a positive timestep and time remaining, each pass of the time loop takes one pass off the ceil(remaining / timestep) still to come |
| Threaded.SubStepCount | src/runner/threaded.rs:46-62 | no sub-step for a time of zero or less; otherwise ceil(time / timestep) of them, the least n with n·timestep ≥ time |
| Threaded.SubStepBounds | src/runner/threaded.rs:55-60 | every sub-step lies in (0, timestep]; all but the last are a whole timestep; they sum to the time advanced |
| Threaded.AdvanceSimulation | src/runner/threaded.rs:33-63 | `SimStateInvalid` exactly when the state does not fit the world, with no step taken; otherwise the state after the sub-steps in order; a time of zero or less returns the state itself |
| Threaded.AxisRemainder | src/runner/threaded.rs:80 | world − chunk_size·(world / chunk_size) is world mod chunk_size |
| Threaded.AxisSplit | src/runner/threaded.rs:79-84 | whole chunks and the remainder make up the axis, the remainder is below chunk_size, and it is 0 exactly when chunk_size divides the axis |
| Threaded.AxisPartition | src/runner/threaded.rs:97-114 | along one axis, the range of chunk i ∈ 0 ..= chunks covers p exactly when p is in the world and i = p / chunk_size |
| Threaded.JobsPartitionCells | src/runner/threaded.rs:94-114 | the job of chunk (x, y, z) covers a cell exactly when the cell is in the world and lies in chunk (x, y, z); so the jobs are disjoint and cover the world |
| Threaded.PosToIndexInjective | src/runner/threaded.rs:86-88 | `pos_to_index` maps in-bounds cells one-to-one to positions below X·Y·Z |
| Threaded.AdvanceWorldStateSetup | src/runner/threaded.rs:76-114 | the delta buffer holds X·Y·Z zeros, and the jobs are one per chunk in 0 ..= chunks per axis, x outermost |
| Threaded.BuildJobs | src/runner/threaded.rs:94-114 | the outer job loop builds every chunk's job in loop order |
| Threaded.BuildJobSlab | src/runner/threaded.rs:95-113 | the middle loop appends the jobs of slab x in order |
| Threaded.BuildJobRow | src/runner/threaded.rs:96-112 | the inner loop appends the jobs (x, y, 0 ..= z_chunks), each with its min corner and its extents |
| Threaded.JobOrder | src/runner/threaded.rs:94-114 | the job for chunk (x, y, z) sits at position z + y·nz + x·nz·ny of the job list |

## Left out

- **File output**: `File::create`, the header and materials text, and the base64 rendering of
  chunks (src/world.rs:88-107, 189-197). These are I/O plus an external library. `SimWorld`
  keeps, in place of its file handle, the encoded chunk bytes in the order they are written.
- **Floating-point rounding**: the f64 arithmetic and the `as f32` sub-step cast are not rounded
  as IEEE floats; reals stand in for them. Saturating casts of floats to `u64` are modelled,
  but the usize/u64 overflow of products and sums is not: the model's integers are unbounded.
  This covers `cells_x * cells_y * cells_z`, the sums `self.min_x + self.x`
  (src/volume.rs:86-90), the increment `self.x += 1` when `len_x` is u64::MAX, and the sums of
  the index formulas.
- **NaN**: the derived `PartialEq` on `Material` is modelled as equality of reals, so NaN is not
  modelled.
- **Zero resolution**: a resolution or cell size of 0.0 makes the source divide by zero
  (infinite or NaN sizes). The model's callers must pass a non-zero one.
- AdvanceWorldStateSetup: requires a positive chunk size. With a chunk size of 0 the source's
  `world_x / chunk_size` panics (src/runner/threaded.rs:79-84), and that panic is not modelled.
- **Hashing**: `HashMap<Material, u8>` is a Dafny `map` keyed by the material value, because
  f64 is not `Hash`.
- **Brushes**: a `Brush` is its sequence of cells plus the min and max corners used by the
  overlap pre-filter, because `get_min` and `get_max` are not defined. The resolution argument
  of `brush.cell_iter(resolution)` goes with them.
- **External definitions**:
  - `material::BLANK` is taken to be `Material::blank`.
  - `material::WATER` and the tuple conductivity written out at src/world.rs:104-106 are not
    defined in `material.rs`. The model keeps the single conductivity field of `material.rs`.
- **Builder ownership**: the builder's `mut self` methods consume and return the builder. They
  are modelled as updates in place of one `SimWorldBuilder` object.
- **`AABBVolume::new`** (src/volume.rs:21-37) is the datatype constructor `AABBVolume`, and has
  nothing to prove.
- **The `CellIterator` trait**: it has one implementation, `AABBVolume`, and the model calls
  that implementation directly. The iterator's origin and lengths are immutable fields, and its
  counters are the fields `next` updates.
- **Thread pool**: the pool, `Arc` and `Mutex` part of `advance_world_state`
  (src/runner/threaded.rs:90-135) is concurrency. It is also broken:
  - the z loop shadows `x` at line 123;
  - the deltas are never written;
  - nothing joins the pool before `apply_deltas` at line 140.

  The model stops at the job list, and one sub-step is the parameter `step`.
- **Missing runner methods**: `is_state_valid`, `get_energies`, `apply_deltas`, `get_materials`
  and `get_material_map` are not defined, and `SimState` is an empty struct. `SimState` is
  modelled as its energies. Validity (`Threaded.IsStateValid`) is modelled as the size check
  only: the state holds one energy per world cell. The resolution mismatch that
  `SimStateOppError` also names (src/world.rs:214-221, 255-256) is not modelled, because
  `SimState` carries no resolution.
- **Stubs**: `get_energy_flow` (src/runner/threaded.rs:144-152) and `SimWorld::sample_material`,
  `get_blank_sim_state`, `set_sim_state_temperature` and `SimState::sample_energy`
  (src/world.rs:246-275) are `todo!()`, so there is no behaviour to model. So is the
  `CPUSimRunner` body in `runner/cpu.rs`.
- **Other runner files**: `runner/mod.rs` is only a trait whose signatures disagree with its
  implementations, and `lib.rs` only declares modules.
- **`ThreadedRunner::new`** (src/runner/threaded.rs:24-29) only stores the worker count and
  chunk size. The chunk size is a parameter of `AdvanceWorldStateSetup`.
- **Iterator loops**: the three `SimulationState` operations build the iterator in one method
  and run the loop in a second one (`SetMaterialCells`, `SetTemperatureCells`,
  `AddEnergyCells`). This keeps the real-valued rounding out of the loop's verification; it is
  the same computation.
- **Loop helpers**: the loop bodies of `encode_byte_stream` (`EncodeByte`) and the nested chunk
  and job loops (`BakeRow`, `BakeSlab`, `BuildJobRow`, `BuildJobSlab`) are separate methods
  for the same reason.
- **`.expect` on `material_map.get(i)`**: in `build`'s search, this lookup always succeeds, so
  it is a plain index.
