/**
 * The sequential parts of the threaded runner (`src/runner/threaded.rs`): the state-validity
 * guard and the sub-step loop of `advance_simulation`, and the energy-delta buffer and the
 * chunk-job partition `advance_world_state` sets up before handing jobs to its thread pool.
 * One sub-step of the physics is a parameter `step`: its per-cell energy flow has no code.
 */
module Threaded {
  import opened Wrappers
  import opened Numeric
  import opened Indexing
  import opened Volume
  import opened NestedLoops
  import World

  /** `SimError`: the only error a runner reports. */
  datatype SimError = SimStateInvalid

  /** A simulation state: one energy per cell of the world, in row-major order. */
  datatype SimState = SimState(energies: seq<real>)

  /** A state is valid for a world when it has one energy per cell of the world. */
  predicate IsStateValid(world: World.SimWorld, s: SimState)
  {
    |s.energies| == world.sizeX * world.sizeY * world.sizeZ
  }

  /* ---------- The sub-step loop of `advance_simulation` ---------- */

  /** Passes of the time loop still to come while `remaining` time is left. */
  function StepsLeft(remaining: real, timestep: real): nat
    requires remaining <= 0.0 || timestep > 0.0
  {
    if remaining <= 0.0 then 0 else
      assert remaining / timestep > 0.0;
      Ceil(remaining / timestep)
  }

  /** Each pass of the time loop takes one pass off what is left. */
  lemma StepsLeftDecreases(remaining: real, timestep: real)
    requires remaining > 0.0 && timestep > 0.0
    ensures StepsLeft(remaining, timestep) >= 1
    ensures StepsLeft(remaining - timestep, timestep) == StepsLeft(remaining, timestep) - 1
  {
    var q := remaining / timestep;
    assert q * timestep == remaining;
    assert q > 0.0;
    if remaining - timestep > 0.0 {
      var q2 := (remaining - timestep) / timestep;
      assert q2 * timestep == remaining - timestep;
      var d := q2 - q + 1.0;
      assert d * timestep == 0.0;
      assert d == 0.0;
    } else {
      assert q <= 1.0;
    }
  }

  /**
   * The sub-steps the time loop takes: while time remains, one of `min(timestep, remaining)`,
   * after which a whole `timestep` is taken off what remains.
   */
  function SubSteps(remaining: real, timestep: real): (ds: seq<real>)
    requires remaining <= 0.0 || timestep > 0.0
    decreases StepsLeft(remaining, timestep)
  {
    if remaining <= 0.0 then []
    else
      StepsLeftDecreases(remaining, timestep);
      [MinReal(timestep, remaining)] + SubSteps(remaining - timestep, timestep)
  }

  /** The state after taking the sub-steps `ds` one after the other. */
  function Iterate(step: (SimState, real) -> SimState, s: SimState, ds: seq<real>): SimState
    decreases |ds|
  {
    if ds == [] then s else Iterate(step, step(s, ds[0]), ds[1..])
  }

  /** The state after advancing `s` by `advanceTime` in sub-steps of at most `timestep`. */
  function Advance(step: (SimState, real) -> SimState, s: SimState, advanceTime: real, timestep: real): SimState
    requires advanceTime <= 0.0 || timestep > 0.0
  {
    Iterate(step, s, SubSteps(advanceTime, timestep))
  }

  /** The sum of a list of durations. */
  function Sum(ds: seq<real>): real
  {
    if ds == [] then 0.0 else ds[0] + Sum(ds[1..])
  }

  /**
   * The loop takes the ceiling of advanceTime / timestep sub-steps, and none when no time is
   * to be advanced: the least n with n * timestep >= advanceTime.
   */
  lemma {:induction false} SubStepCount(advanceTime: real, timestep: real)
    requires advanceTime <= 0.0 || timestep > 0.0
    ensures advanceTime <= 0.0 ==> SubSteps(advanceTime, timestep) == []
    ensures advanceTime > 0.0 ==> |SubSteps(advanceTime, timestep)| == Ceil(advanceTime / timestep)
    ensures advanceTime > 0.0 ==>
              var n := |SubSteps(advanceTime, timestep)|;
              n >= 1 && Times(n - 1, timestep) < advanceTime <= Times(n, timestep)
    decreases StepsLeft(advanceTime, timestep)
  {
    if advanceTime > 0.0 {
      StepsLeftDecreases(advanceTime, timestep);
      var rest := advanceTime - timestep;
      SubStepCount(rest, timestep);
      var n := |SubSteps(advanceTime, timestep)|;
      if rest <= 0.0 {
        assert n == 1;
        assert Times(1, timestep) == timestep;
      } else {
        assert |SubSteps(rest, timestep)| == n - 1;
        assert Times(n - 1, timestep) == Times(n - 2, timestep) + timestep;
      }
      assert (advanceTime / timestep) > 0.0;
    }
  }

  /**
   * Every sub-step lies in (0, timestep], every one but the last is a whole timestep, and the
   * sub-steps add up to exactly the time advanced.
   */
  lemma {:induction false} SubStepBounds(advanceTime: real, timestep: real)
    requires advanceTime <= 0.0 || timestep > 0.0
    ensures var ds := SubSteps(advanceTime, timestep);
            forall i :: 0 <= i < |ds| ==> 0.0 < ds[i] <= timestep
    ensures var ds := SubSteps(advanceTime, timestep);
            forall i :: 0 <= i < |ds| - 1 ==> ds[i] == timestep
    ensures Sum(SubSteps(advanceTime, timestep)) == if advanceTime <= 0.0 then 0.0 else advanceTime
    decreases StepsLeft(advanceTime, timestep)
  {
    if advanceTime > 0.0 {
      StepsLeftDecreases(advanceTime, timestep);
      var rest := advanceTime - timestep;
      SubStepBounds(rest, timestep);
      var ds := SubSteps(advanceTime, timestep);
      assert ds[1..] == SubSteps(rest, timestep);
      if rest > 0.0 {
        assert ds[0] == timestep;
      }
    }
  }

  /**
   * `advance_simulation`: an invalid state is rejected before any step; otherwise the state is
   * advanced sub-step by sub-step while time remains, so that a time of zero or less returns the
   * state unchanged. A positive time with a timestep of zero or less never ends in the source,
   * which is why a valid call with time to advance needs a positive timestep.
   */
  method AdvanceSimulation(world: World.SimWorld, currentState: SimState, advanceTime: real, timestep: real,
                           step: (SimState, real) -> SimState)
    returns (r: Result<SimState, SimError>)
    requires IsStateValid(world, currentState) && advanceTime > 0.0 ==> timestep > 0.0
    ensures r.Failure? <==> !IsStateValid(world, currentState)
    ensures r.Failure? ==> r.error == SimStateInvalid
    ensures r.Success? ==> r.value == Advance(step, currentState, advanceTime, timestep)
    ensures r.Success? && advanceTime <= 0.0 ==> r.value == currentState
  {
    if !IsStateValid(world, currentState) {
      return Failure(SimStateInvalid);
    }
    var activeState := currentState;
    var remainingTime := advanceTime;
    while remainingTime > 0.0
      invariant remainingTime <= 0.0 || timestep > 0.0
      invariant Advance(step, activeState, remainingTime, timestep) == Advance(step, currentState, advanceTime, timestep)
      decreases StepsLeft(remainingTime, timestep)
    {
      StepsLeftDecreases(remainingTime, timestep);
      activeState := step(activeState, MinReal(timestep, remainingTime));
      remainingTime := remainingTime - timestep;
    }
    return Success(activeState);
  }

  /* ---------- The set-up of `advance_world_state` ---------- */

  /** Whole chunks along an axis of `w` cells: `w / chunk_size`. */
  function AxisChunks(w: nat, chunkSize: nat): nat
    requires chunkSize > 0
  {
    w / chunkSize
  }

  /** The cells left over after the whole chunks: `w - chunk_size * chunks`. */
  function AxisRemainder(w: nat, chunkSize: nat): (rem: nat)
    requires chunkSize > 0
    ensures rem == w % chunkSize
  {
    assert w == chunkSize * (w / chunkSize) + w % chunkSize;
    w - chunkSize * AxisChunks(w, chunkSize)
  }

  /** The whole chunks and the remainder make up the axis, and the remainder is less than a chunk. */
  lemma AxisSplit(w: nat, chunkSize: nat)
    requires chunkSize > 0
    ensures chunkSize * AxisChunks(w, chunkSize) + AxisRemainder(w, chunkSize) == w
    ensures AxisRemainder(w, chunkSize) < chunkSize
    ensures AxisRemainder(w, chunkSize) == 0 <==> w % chunkSize == 0
  {
  }

  /** The extent of chunk `i` along an axis: a whole chunk, except the last, which is the remainder. */
  function JobExtent(i: nat, w: nat, chunkSize: nat): nat
    requires chunkSize > 0
  {
    if i < AxisChunks(w, chunkSize) then chunkSize else AxisRemainder(w, chunkSize)
  }

  /** The cells `[min, min + size)` along each axis that one job of the pool covers. */
  datatype ChunkJob = ChunkJob(xmin: nat, ymin: nat, zmin: nat, xsize: nat, ysize: nat, zsize: nat)

  /** The job the loops build for chunk (x, y, z) of a world of `wx` by `wy` by `wz` cells. */
  function JobFor(x: nat, y: nat, z: nat, wx: nat, wy: nat, wz: nat, chunkSize: nat): ChunkJob
    requires chunkSize > 0
  {
    ChunkJob(chunkSize * x, chunkSize * y, chunkSize * z,
             JobExtent(x, wx, chunkSize), JobExtent(y, wy, chunkSize), JobExtent(z, wz, chunkSize))
  }

  /** The jobs of a world as a function of the chunk coordinates, for the loop-order functions. */
  function JobOf(wx: nat, wy: nat, wz: nat, chunkSize: nat): (nat, nat, nat) -> ChunkJob
  {
    (x: nat, y: nat, z: nat) =>
      if chunkSize == 0 then ChunkJob(0, 0, 0, 0, 0, 0) else JobFor(x, y, z, wx, wy, wz, chunkSize)
  }

  /** A job covers a cell when the cell is inside its range on all three axes. */
  predicate Covers(job: ChunkJob, c: Cell)
  {
    job.xmin <= c.x < job.xmin + job.xsize &&
    job.ymin <= c.y < job.ymin + job.ysize &&
    job.zmin <= c.z < job.zmin + job.zsize
  }

  /**
   * Along one axis the ranges of chunks 0 ..= w / chunk_size partition the cells of the world:
   * chunk i covers position p exactly when p is in the world and i is p / chunk_size.
   */
  lemma AxisPartition(i: nat, p: nat, w: nat, chunkSize: nat)
    requires chunkSize > 0 && i <= AxisChunks(w, chunkSize)
    ensures (chunkSize * i <= p < chunkSize * i + JobExtent(i, w, chunkSize)) <==> (p < w && i == p / chunkSize)
  {
    if chunkSize * i <= p < chunkSize * i + JobExtent(i, w, chunkSize) {
      AxisOwner(i, p, w, chunkSize);
    }
    if p < w && i == p / chunkSize {
      AxisOwnChunk(p, w, chunkSize);
    }
  }

  /** A position in the range of chunk i is in the world, and i is its chunk. */
  lemma AxisOwner(i: nat, p: nat, w: nat, chunkSize: nat)
    requires chunkSize > 0 && i <= AxisChunks(w, chunkSize)
    requires chunkSize * i <= p < chunkSize * i + JobExtent(i, w, chunkSize)
    ensures p < w && i == p / chunkSize
  {
    var c, n := chunkSize, AxisChunks(w, chunkSize);
    AxisSplit(w, c);
    assert p == c * (p / c) + p % c;
    DivUnique(c, i, p - c * i, p / c, p % c);
    if i < n {
      MulMono(c, i + 1, n);
      assert c * (i + 1) == c * i + c;
    }
  }

  /** A position of the world lies in the range of its own chunk p / chunk_size. */
  lemma AxisOwnChunk(p: nat, w: nat, chunkSize: nat)
    requires chunkSize > 0 && p < w
    ensures p / chunkSize <= AxisChunks(w, chunkSize)
    ensures var i := p / chunkSize; chunkSize * i <= p < chunkSize * i + JobExtent(i, w, chunkSize)
  {
    var c, n := chunkSize, AxisChunks(w, chunkSize);
    AxisSplit(w, c);
    DivMonotone(p, w, c);
    assert p == c * (p / c) + p % c;
  }

  /**
   * The jobs partition the world's cells: the job of chunk (x, y, z) covers a cell exactly when
   * the cell is in the world and (x, y, z) is the cell's coordinates divided by the chunk size.
   */
  lemma JobsPartitionCells(wx: nat, wy: nat, wz: nat, chunkSize: nat, x: nat, y: nat, z: nat, c: Cell)
    requires chunkSize > 0
    requires x <= AxisChunks(wx, chunkSize) && y <= AxisChunks(wy, chunkSize) && z <= AxisChunks(wz, chunkSize)
    ensures Covers(JobOf(wx, wy, wz, chunkSize)(x, y, z), c) <==>
              c.x < wx && c.y < wy && c.z < wz &&
              x == c.x / chunkSize && y == c.y / chunkSize && z == c.z / chunkSize
  {
    AxisPartition(x, c.x, wx, chunkSize);
    AxisPartition(y, c.y, wy, chunkSize);
    AxisPartition(z, c.z, wz, chunkSize);
  }

  /**
   * `pos_to_index` maps the cells of a `wx` by `wy` by `wz` world one-to-one onto the positions
   * of the delta buffer.
   */
  lemma PosToIndexInjective(a: Cell, b: Cell, wx: nat, wy: nat, wz: nat)
    requires a.x < wx && a.y < wy && a.z < wz
    requires b.x < wx && b.y < wy && b.z < wz
    ensures Flatten(a.x, a.y, a.z, wx, wy) < wx * wy * wz
    ensures Flatten(a.x, a.y, a.z, wx, wy) == Flatten(b.x, b.y, b.z, wx, wy) <==> a == b
  {
    FlattenBound(a.x, a.y, a.z, wx, wy, wz);
    if Flatten(a.x, a.y, a.z, wx, wy) == Flatten(b.x, b.y, b.z, wx, wy) {
      FlattenInjective(a.x, a.y, a.z, b.x, b.y, b.z, wx, wy);
    }
  }

  /**
   * `advance_world_state` up to the thread pool: the delta buffer is resized from empty to one
   * zero per cell, and the three loops over chunks 0 ..= w / chunk_size on each axis build one
   * job per chunk, x outermost and z innermost. A chunk size of zero makes the source divide by
   * zero.
   */
  method AdvanceWorldStateSetup(worldX: nat, worldY: nat, worldZ: nat, chunkSize: nat)
    returns (energyDeltas: seq<real>, jobs: seq<ChunkJob>)
    requires chunkSize > 0
    ensures |energyDeltas| == worldX * worldY * worldZ
    ensures forall i :: 0 <= i < |energyDeltas| ==> energyDeltas[i] == 0.0
    ensures jobs == Block(JobOf(worldX, worldY, worldZ, chunkSize),
                          AxisChunks(worldY, chunkSize) + 1, AxisChunks(worldZ, chunkSize) + 1,
                          AxisChunks(worldX, chunkSize) + 1)
  {
    // `Vec::new` followed by `resize(n, 0.0)`: n zeros.
    energyDeltas := seq(worldX * worldY * worldZ, _ => 0.0);

    var xChunks := AxisChunks(worldX, chunkSize);
    var xRemainder := AxisRemainder(worldX, chunkSize);
    var yChunks := AxisChunks(worldY, chunkSize);
    var yRemainder := AxisRemainder(worldY, chunkSize);
    var zChunks := AxisChunks(worldZ, chunkSize);
    var zRemainder := AxisRemainder(worldZ, chunkSize);

    jobs := BuildJobs(worldX, worldY, worldZ, chunkSize, xChunks, yChunks, zChunks, xRemainder, yRemainder, zRemainder);
  }

  /** The outer loop over chunk x coordinates 0 ..= xChunks. */
  method BuildJobs(worldX: nat, worldY: nat, worldZ: nat, chunkSize: nat,
                   xChunks: nat, yChunks: nat, zChunks: nat, xRemainder: nat, yRemainder: nat, zRemainder: nat)
    returns (jobs: seq<ChunkJob>)
    requires chunkSize > 0
    requires xChunks == AxisChunks(worldX, chunkSize) && xRemainder == AxisRemainder(worldX, chunkSize)
    requires yChunks == AxisChunks(worldY, chunkSize) && yRemainder == AxisRemainder(worldY, chunkSize)
    requires zChunks == AxisChunks(worldZ, chunkSize) && zRemainder == AxisRemainder(worldZ, chunkSize)
    ensures jobs == Block(JobOf(worldX, worldY, worldZ, chunkSize), yChunks + 1, zChunks + 1, xChunks + 1)
  {
    ghost var f := JobOf(worldX, worldY, worldZ, chunkSize);
    jobs := [];
    for x := 0 to xChunks + 1
      invariant jobs == Block(f, yChunks + 1, zChunks + 1, x)
    {
      jobs := BuildJobSlab(worldX, worldY, worldZ, chunkSize, x, xChunks, yChunks, zChunks, xRemainder, yRemainder, zRemainder, jobs);
      BlockStep(f, yChunks + 1, zChunks + 1, x, []);
    }
  }

  /** The middle loop over chunk y coordinates 0 ..= yChunks, for the chunk x coordinate `x`. */
  method BuildJobSlab(worldX: nat, worldY: nat, worldZ: nat, chunkSize: nat, x: nat,
                      xChunks: nat, yChunks: nat, zChunks: nat, xRemainder: nat, yRemainder: nat, zRemainder: nat,
                      jobs0: seq<ChunkJob>)
    returns (jobs: seq<ChunkJob>)
    requires chunkSize > 0
    requires xChunks == AxisChunks(worldX, chunkSize) && xRemainder == AxisRemainder(worldX, chunkSize)
    requires yChunks == AxisChunks(worldY, chunkSize) && yRemainder == AxisRemainder(worldY, chunkSize)
    requires zChunks == AxisChunks(worldZ, chunkSize) && zRemainder == AxisRemainder(worldZ, chunkSize)
    ensures jobs == jobs0 + Slab(JobOf(worldX, worldY, worldZ, chunkSize), zChunks + 1, x, yChunks + 1)
  {
    ghost var f := JobOf(worldX, worldY, worldZ, chunkSize);
    jobs := jobs0;
    for y := 0 to yChunks + 1
      invariant jobs == jobs0 + Slab(f, zChunks + 1, x, y)
    {
      jobs := BuildJobRow(worldX, worldY, worldZ, chunkSize, x, y, xChunks, yChunks, zChunks, xRemainder, yRemainder, zRemainder, jobs);
      SlabStep(f, zChunks + 1, x, y, jobs0);
    }
  }

  /** The inner loop over chunk z coordinates 0 ..= zChunks: one job per chunk (x, y, z). */
  method BuildJobRow(worldX: nat, worldY: nat, worldZ: nat, chunkSize: nat, x: nat, y: nat,
                     xChunks: nat, yChunks: nat, zChunks: nat, xRemainder: nat, yRemainder: nat, zRemainder: nat,
                     jobs0: seq<ChunkJob>)
    returns (jobs: seq<ChunkJob>)
    requires chunkSize > 0
    requires xChunks == AxisChunks(worldX, chunkSize) && xRemainder == AxisRemainder(worldX, chunkSize)
    requires yChunks == AxisChunks(worldY, chunkSize) && yRemainder == AxisRemainder(worldY, chunkSize)
    requires zChunks == AxisChunks(worldZ, chunkSize) && zRemainder == AxisRemainder(worldZ, chunkSize)
    ensures jobs == jobs0 + Row(JobOf(worldX, worldY, worldZ, chunkSize), x, y, zChunks + 1)
  {
    ghost var f := JobOf(worldX, worldY, worldZ, chunkSize);
    jobs := jobs0;
    for z := 0 to zChunks + 1
      invariant jobs == jobs0 + Row(f, x, y, z)
    {
      var xmin := chunkSize * x;
      var ymin := chunkSize * y;
      var zmin := chunkSize * z;
      var xsize := if x < xChunks then chunkSize else xRemainder;
      var ysize := if y < yChunks then chunkSize else yRemainder;
      var zsize := if z < zChunks then chunkSize else zRemainder;
      var job := ChunkJob(xmin, ymin, zmin, xsize, ysize, zsize);
      assert job == JobFor(x, y, z, worldX, worldY, worldZ, chunkSize);
      assert job == f(x, y, z);
      jobs := jobs + [job];
    }
  }

  /**
   * The job at flat position z + y * nz + x * nz * ny of the set-up's list is the one for chunk
   * (x, y, z), where nx, ny, nz are the chunk counts plus one; there are nx * ny * nz jobs.
   */
  lemma JobOrder(worldX: nat, worldY: nat, worldZ: nat, chunkSize: nat, x: nat, y: nat, z: nat)
    requires chunkSize > 0
    requires x <= AxisChunks(worldX, chunkSize) && y <= AxisChunks(worldY, chunkSize) && z <= AxisChunks(worldZ, chunkSize)
    ensures var nx, ny, nz := AxisChunks(worldX, chunkSize) + 1, AxisChunks(worldY, chunkSize) + 1, AxisChunks(worldZ, chunkSize) + 1;
            var jobs := Block(JobOf(worldX, worldY, worldZ, chunkSize), ny, nz, nx);
            |jobs| == nx * ny * nz &&
            Flatten(z, y, x, nz, ny) < |jobs| &&
            jobs[Flatten(z, y, x, nz, ny)] == JobOf(worldX, worldY, worldZ, chunkSize)(x, y, z)
  {
    BlockAtFlat(JobOf(worldX, worldY, worldZ, chunkSize), AxisChunks(worldY, chunkSize) + 1,
                AxisChunks(worldZ, chunkSize) + 1, AxisChunks(worldX, chunkSize) + 1, x, y, z);
  }
}
