/**
 * The per-cell simulation state (`src/simulation.rs`): a flat row-major grid holding
 * energy, density, specific heat and thermal conductivity for every cell, with
 * bounds-checked indexing and three operations that paint over a volume in place.
 */
module Simulation {
  import opened Wrappers
  import opened Numeric
  import opened Indexing
  import opened Materials
  import opened Volume

  class SimulationState {
    const cellsX: nat
    const cellsY: nat
    const cellsZ: nat
    const cellSize: real
    var energy: seq<real>
    var density: seq<real>
    var specificHeat: seq<real>
    var thermalConductivity: seq<real>

    /** The number of cells of the grid. */
    function CellTotal(): nat
    {
      cellsX * cellsY * cellsZ
    }

    /** Every per-cell vector holds one entry per cell. */
    ghost predicate Valid()
      reads this
    {
      cellSize != 0.0 &&
      |energy| == CellTotal() && |density| == CellTotal() &&
      |specificHeat| == CellTotal() && |thermalConductivity| == CellTotal()
    }

    /** `SimulationState::new`: the cell counts round each extent up, and every vector starts at 0.0. */
    constructor (sizeX: real, sizeY: real, sizeZ: real, cellSize: real)
      requires cellSize != 0.0
      ensures cellsX == CellCountCeil(sizeX, cellSize)
      ensures cellsY == CellCountCeil(sizeY, cellSize)
      ensures cellsZ == CellCountCeil(sizeZ, cellSize)
      ensures this.cellSize == cellSize
      ensures Valid()
      ensures forall i :: 0 <= i < CellTotal() ==>
        energy[i] == 0.0 && density[i] == 0.0 && specificHeat[i] == 0.0 && thermalConductivity[i] == 0.0
    {
      var cx, cy, cz := CellCountCeil(sizeX, cellSize), CellCountCeil(sizeY, cellSize), CellCountCeil(sizeZ, cellSize);
      var blank := seq(cx * cy * cz, _ => 0.0);
      cellsX, cellsY, cellsZ := cx, cy, cz;
      this.cellSize := cellSize;
      energy, density, specificHeat, thermalConductivity := blank, blank, blank, blank;
    }

    /** `cell_to_index`: `None` exactly when some coordinate is outside its axis, otherwise the
        row-major index, which lies below the cell total. */
    function CellToIndex(x: nat, y: nat, z: nat): (r: Option<nat>)
      reads this
      ensures r.None? <==> (x >= cellsX || y >= cellsY || z >= cellsZ)
      ensures r.Some? ==> r.value == Flatten(x, y, z, cellsX, cellsY) && r.value < CellTotal()
    {
      GridIndexBound(cellsX, cellsY, cellsZ, x, y, z);
      GridIndex(cellsX, cellsY, cellsZ, x, y, z)
    }

    /** The indices of the in-bounds cells `cell_iter(cellSize)` yields for `volume`, in order. */
    function VolumeIndices(volume: AABBVolume): seq<nat>
      reads this
      requires cellSize != 0.0
    {
      InBoundsIndices(cellsX, cellsY, cellsZ, CellSeq(volume, cellSize))
    }

    /** The body of `set_material`'s loop for one cell: the three material vectors take the
        material's values at the cell's index when it has one and the vector is long enough. */
    method SetCellMaterial(cell: Cell, material: Material)
      requires Valid()
      modifies this
      ensures Valid()
      ensures energy == old(energy)
      ensures density == PaintCell(old(density), cellsX, cellsY, cellsZ, cell, Put(material.density))
      ensures specificHeat == PaintCell(old(specificHeat), cellsX, cellsY, cellsZ, cell, Put(material.specificHeat))
      ensures thermalConductivity
           == PaintCell(old(thermalConductivity), cellsX, cellsY, cellsZ, cell, Put(material.thermalConductivity))
    {
      var index := CellToIndex(cell.x, cell.y, cell.z);
      if index.Some? {
        var i := index.value;
        if i < |density| {
          density := density[i := material.density];
        }
        if i < |specificHeat| {
          specificHeat := specificHeat[i := material.specificHeat];
        }
        if i < |thermalConductivity| {
          thermalConductivity := thermalConductivity[i := material.thermalConductivity];
        }
      }
    }

    /**
     * `set_material`: the density, specific heat and conductivity vectors are painted with the
     * material over the cells the volume yields (see `PaintOverwrites` for what that means per
     * cell); energy and the geometry are unchanged.
     */
    method SetMaterial(volume: AABBVolume, material: Material)
      requires Valid()
      modifies this
      ensures Valid()
      ensures energy == old(energy)
      ensures density == Paint(old(density), cellsX, cellsY, cellsZ, CellSeq(volume, cellSize), Put(material.density))
      ensures specificHeat
           == Paint(old(specificHeat), cellsX, cellsY, cellsZ, CellSeq(volume, cellSize), Put(material.specificHeat))
      ensures thermalConductivity
           == Paint(old(thermalConductivity), cellsX, cellsY, cellsZ, CellSeq(volume, cellSize),
                    Put(material.thermalConductivity))
    {
      var it := CellIter(volume, cellSize);
      SetMaterialCells(it, material);
    }

    /** The loop of `set_material` over the cells `it` yields. */
    method SetMaterialCells(it: AABBVolumeIter, material: Material)
      requires Valid() && it.Valid() && it.count == 0
      modifies this, it
      ensures Valid()
      ensures energy == old(energy)
      ensures density == Paint(old(density), cellsX, cellsY, cellsZ, it.cells, Put(material.density))
      ensures specificHeat
           == Paint(old(specificHeat), cellsX, cellsY, cellsZ, it.cells, Put(material.specificHeat))
      ensures thermalConductivity
           == Paint(old(thermalConductivity), cellsX, cellsY, cellsZ, it.cells,
                    Put(material.thermalConductivity))
    {
      ghost var all := it.cells;
      ghost var k := 0;
      while true
        invariant it.Valid() && it.count == k
        invariant Valid()
        invariant energy == old(energy)
        invariant density == Paint(old(density), cellsX, cellsY, cellsZ, all[..k], Put(material.density))
        invariant specificHeat == Paint(old(specificHeat), cellsX, cellsY, cellsZ, all[..k], Put(material.specificHeat))
        invariant thermalConductivity
               == Paint(old(thermalConductivity), cellsX, cellsY, cellsZ, all[..k], Put(material.thermalConductivity))
        decreases |all| - k
      {
        var next := it.Next();
        if next.None? {
          break;
        }
        SetCellMaterial(next.value, material);
        PaintStep(old(density), cellsX, cellsY, cellsZ, all, k, Put(material.density));
        PaintStep(old(specificHeat), cellsX, cellsY, cellsZ, all, k, Put(material.specificHeat));
        PaintStep(old(thermalConductivity), cellsX, cellsY, cellsZ, all, k, Put(material.thermalConductivity));
        k := k + 1;
      }
      assert all[..k] == all;
    }

    /** The body of `set_temperature`'s loop for one cell: when the cell has an index inside all
        three vectors, its energy becomes the temperature times its mass times its specific heat. */
    method SetCellTemperature(cell: Cell, temperature: real)
      requires Valid()
      modifies this
      ensures Valid()
      ensures density == old(density) && specificHeat == old(specificHeat)
      ensures thermalConductivity == old(thermalConductivity)
      ensures energy == PaintCell(old(energy), cellsX, cellsY, cellsZ, cell,
                                  Heat(temperature, density, specificHeat, cellSize))
    {
      var index := CellToIndex(cell.x, cell.y, cell.z);
      if index.Some? {
        var i := index.value;
        if i < |energy| && i < |specificHeat| && i < |density| {
          var mass := density[i] * (cellSize * cellSize * cellSize);
          energy := energy[i := temperature * mass * specificHeat[i]];
          assert energy[i] == WriteAt(Heat(temperature, density, specificHeat, cellSize), old(energy)[i], i);
        }
      }
    }

    /**
     * `set_temperature`: the energy vector is painted, over the cells the volume yields, with the
     * energy each cell holds at that temperature given its OWN density and specific heat
     * (`Heat`); nothing else changes.
     */
    method SetTemperature(volume: AABBVolume, temperature: real)
      requires Valid()
      modifies this
      ensures Valid()
      ensures density == old(density) && specificHeat == old(specificHeat)
      ensures thermalConductivity == old(thermalConductivity)
      ensures energy == Paint(old(energy), cellsX, cellsY, cellsZ, CellSeq(volume, cellSize),
                              Heat(temperature, density, specificHeat, cellSize))
    {
      var it := CellIter(volume, cellSize);
      SetTemperatureCells(it, temperature);
    }

    /** The loop of `set_temperature` over the cells `it` yields. */
    method SetTemperatureCells(it: AABBVolumeIter, temperature: real)
      requires Valid() && it.Valid() && it.count == 0
      modifies this, it
      ensures Valid()
      ensures density == old(density) && specificHeat == old(specificHeat)
      ensures thermalConductivity == old(thermalConductivity)
      ensures energy == Paint(old(energy), cellsX, cellsY, cellsZ, it.cells,
                              Heat(temperature, density, specificHeat, cellSize))
    {
      ghost var all := it.cells;
      ghost var k := 0;
      ghost var op := Heat(temperature, density, specificHeat, cellSize);
      while true
        invariant it.Valid() && it.count == k
        invariant Valid()
        invariant density == old(density) && specificHeat == old(specificHeat)
        invariant thermalConductivity == old(thermalConductivity)
        invariant energy == Paint(old(energy), cellsX, cellsY, cellsZ, all[..k], op)
        decreases |all| - k
      {
        var next := it.Next();
        if next.None? {
          break;
        }
        SetCellTemperature(next.value, temperature);
        PaintStep(old(energy), cellsX, cellsY, cellsZ, all, k, op);
        k := k + 1;
      }
      assert all[..k] == all;
    }

    /** The body of `add_energy`'s loop for one cell: the amount is added at the cell's index. */
    method AddCellEnergy(cell: Cell, amount: real)
      requires Valid()
      modifies this
      ensures Valid()
      ensures density == old(density) && specificHeat == old(specificHeat)
      ensures thermalConductivity == old(thermalConductivity)
      ensures energy == PaintCell(old(energy), cellsX, cellsY, cellsZ, cell, Add(amount))
    {
      var index := CellToIndex(cell.x, cell.y, cell.z);
      if index.Some? {
        var i := index.value;
        if i < |energy| {
          energy := energy[i := energy[i] + amount];
        }
      }
    }

    /**
     * `add_energy`: the amount is added at every in-bounds cell the volume yields, once per
     * time it is yielded (see `PaintAdds` and `AddEnergyOncePerCell`); only energy changes.
     */
    method AddEnergy(volume: AABBVolume, amount: real)
      requires Valid()
      modifies this
      ensures Valid()
      ensures density == old(density) && specificHeat == old(specificHeat)
      ensures thermalConductivity == old(thermalConductivity)
      ensures energy == Paint(old(energy), cellsX, cellsY, cellsZ, CellSeq(volume, cellSize), Add(amount))
    {
      var it := CellIter(volume, cellSize);
      AddEnergyCells(it, amount);
    }

    /** The loop of `add_energy` over the cells `it` yields. */
    method AddEnergyCells(it: AABBVolumeIter, amount: real)
      requires Valid() && it.Valid() && it.count == 0
      modifies this, it
      ensures Valid()
      ensures density == old(density) && specificHeat == old(specificHeat)
      ensures thermalConductivity == old(thermalConductivity)
      ensures energy == Paint(old(energy), cellsX, cellsY, cellsZ, it.cells, Add(amount))
    {
      ghost var all := it.cells;
      ghost var k := 0;
      while true
        invariant it.Valid() && it.count == k
        invariant Valid()
        invariant density == old(density) && specificHeat == old(specificHeat)
        invariant thermalConductivity == old(thermalConductivity)
        invariant energy == Paint(old(energy), cellsX, cellsY, cellsZ, all[..k], Add(amount))
        decreases |all| - k
      {
        var next := it.Next();
        if next.None? {
          break;
        }
        AddCellEnergy(next.value, amount);
        PaintStep(old(energy), cellsX, cellsY, cellsZ, all, k, Add(amount));
        k := k + 1;
      }
      assert all[..k] == all;
    }
  }

  /** The bounds-checked row-major index of cell (x, y, z) in an nx * ny * nz grid. */
  function GridIndex(nx: nat, ny: nat, nz: nat, x: nat, y: nat, z: nat): (r: Option<nat>)
    ensures r.None? <==> (x >= nx || y >= ny || z >= nz)
  {
    if x >= nx then None
    else if y >= ny then None
    else if z >= nz then None
    else Some(Flatten(x, y, z, nx, ny))
  }

  /** An index `cell_to_index` returns lies below the cell total, so it addresses a cell of the
      vectors a valid state holds. */
  lemma GridIndexBound(nx: nat, ny: nat, nz: nat, x: nat, y: nat, z: nat)
    ensures GridIndex(nx, ny, nz, x, y, z).Some? ==> GridIndex(nx, ny, nz, x, y, z).value < nx * ny * nz
  {
    if GridIndex(nx, ny, nz, x, y, z).Some? {
      FlattenBound(x, y, z, nx, ny, nz);
    }
  }

  /** The indices of the in-bounds cells among `cells`, in the order the cells come. */
  function InBoundsIndices(nx: nat, ny: nat, nz: nat, cells: seq<Cell>): seq<nat>
  {
    if cells == [] then []
    else
      var c := cells[|cells| - 1];
      var front := InBoundsIndices(nx, ny, nz, cells[..|cells| - 1]);
      match GridIndex(nx, ny, nz, c.x, c.y, c.z)
      case Some(i) => front + [i]
      case None => front
  }

  /** What a paint operation writes into one entry of a per-cell vector. */
  datatype Write =
    | Put(v: real)
    | Heat(temperature: real, density: seq<real>, specificHeat: seq<real>, cellSize: real)
    | Add(amount: real)

  /** The new value of entry `i`, which held `current`: `Put` overwrites with a constant; `Heat`
      overwrites with temperature * (density * cellSize^3) * specific heat when the cell has a
      density and a specific heat, and otherwise leaves the entry; `Add` adds. */
  function WriteAt(op: Write, current: real, i: nat): real
  {
    match op
    case Put(v) => v
    case Heat(t, d, h, cs) =>
      if i < |h| && i < |d| then t * (d[i] * (cs * cs * cs)) * h[i] else current
    case Add(amount) => current + amount
  }

  /** One cell's write: applied at the cell's index when it is in the grid and inside the vector
      (`cell_to_index` followed by `get_mut`), otherwise the vector is unchanged. */
  function PaintCell(vec: seq<real>, nx: nat, ny: nat, nz: nat, c: Cell, op: Write): (r: seq<real>)
    ensures |r| == |vec|
    ensures GridIndex(nx, ny, nz, c.x, c.y, c.z).None? ==> r == vec
  {
    match GridIndex(nx, ny, nz, c.x, c.y, c.z)
    case Some(i) => if i < |vec| then vec[i := WriteAt(op, vec[i], i)] else vec
    case None => vec
  }

  /** The cells' writes applied in the order the cells come. */
  function Paint(vec: seq<real>, nx: nat, ny: nat, nz: nat, cells: seq<Cell>, op: Write): (r: seq<real>)
    ensures |r| == |vec|
  {
    if cells == [] then vec
    else PaintCell(Paint(vec, nx, ny, nz, cells[..|cells| - 1], op), nx, ny, nz, cells[|cells| - 1], op)
  }

  /** Painting one more cell of a sequence is one more `PaintCell`. */
  lemma PaintStep(vec: seq<real>, nx: nat, ny: nat, nz: nat, cells: seq<Cell>, k: nat, op: Write)
    requires k < |cells|
    ensures Paint(vec, nx, ny, nz, cells[..k + 1], op)
         == PaintCell(Paint(vec, nx, ny, nz, cells[..k], op), nx, ny, nz, cells[k], op)
  {
    assert cells[..k + 1][..k] == cells[..k];
  }

  /** An overwriting paint leaves entry j at the written value exactly when j is the index of
      some in-bounds cell, and at its old value otherwise: the last write wins, and since every
      write to j writes the same value, repetitions do not matter. */
  lemma {:induction false} PaintOverwrites(vec: seq<real>, nx: nat, ny: nat, nz: nat, cells: seq<Cell>, op: Write, j: nat)
    requires !op.Add? && j < |vec|
    ensures Paint(vec, nx, ny, nz, cells, op)[j]
         == if j in InBoundsIndices(nx, ny, nz, cells) then WriteAt(op, vec[j], j) else vec[j]
  {
    if cells != [] {
      var front := cells[..|cells| - 1];
      var c := cells[|cells| - 1];
      PaintOverwrites(vec, nx, ny, nz, front, op, j);
      match GridIndex(nx, ny, nz, c.x, c.y, c.z)
      case None =>
        assert InBoundsIndices(nx, ny, nz, cells) == InBoundsIndices(nx, ny, nz, front);
      case Some(i) =>
        assert InBoundsIndices(nx, ny, nz, cells) == InBoundsIndices(nx, ny, nz, front) + [i];
    }
  }

  /** An adding paint adds the amount to entry j once for every in-bounds cell whose index is j. */
  lemma {:induction false} PaintAdds(vec: seq<real>, nx: nat, ny: nat, nz: nat, cells: seq<Cell>, amount: real, j: nat)
    requires j < |vec|
    ensures Paint(vec, nx, ny, nz, cells, Add(amount))[j]
         == vec[j] + Times(multiset(InBoundsIndices(nx, ny, nz, cells))[j], amount)
  {
    if cells == [] {
      assert multiset(InBoundsIndices(nx, ny, nz, cells))[j] == 0;
    } else {
      var front, c := cells[..|cells| - 1], cells[|cells| - 1];
      PaintAdds(vec, nx, ny, nz, front, amount, j);
      PaintAddsLast(vec, nx, ny, nz, cells, amount, j);
      InBoundsIndicesLast(nx, ny, nz, cells, j);
    }
  }

  /** The last cell of an adding paint adds the amount at entry j exactly when its index is j. */
  lemma PaintAddsLast(vec: seq<real>, nx: nat, ny: nat, nz: nat, cells: seq<Cell>, amount: real, j: nat)
    requires j < |vec| && cells != []
    ensures var c := cells[|cells| - 1];
      Paint(vec, nx, ny, nz, cells, Add(amount))[j]
      == Paint(vec, nx, ny, nz, cells[..|cells| - 1], Add(amount))[j]
         + (if GridIndex(nx, ny, nz, c.x, c.y, c.z) == Some(j) then amount else 0.0)
  {
  }

  /** The last cell adds one occurrence of index j exactly when its index is j. */
  lemma InBoundsIndicesLast(nx: nat, ny: nat, nz: nat, cells: seq<Cell>, j: nat)
    requires cells != []
    ensures var c := cells[|cells| - 1];
      multiset(InBoundsIndices(nx, ny, nz, cells))[j]
      == multiset(InBoundsIndices(nx, ny, nz, cells[..|cells| - 1]))[j]
         + (if GridIndex(nx, ny, nz, c.x, c.y, c.z) == Some(j) then 1 else 0)
  {
    var c := cells[|cells| - 1];
    var front := InBoundsIndices(nx, ny, nz, cells[..|cells| - 1]);
    match GridIndex(nx, ny, nz, c.x, c.y, c.z)
    case None =>
      assert InBoundsIndices(nx, ny, nz, cells) == front;
    case Some(i) =>
      assert InBoundsIndices(nx, ny, nz, cells) == front + [i];
      assert multiset(front + [i]) == multiset(front) + multiset{i};
  }

  /** `cell_to_index` is injective on in-range cells. */
  lemma GridIndexInjective(nx: nat, ny: nat, nz: nat, x1: nat, y1: nat, z1: nat, x2: nat, y2: nat, z2: nat)
    requires GridIndex(nx, ny, nz, x1, y1, z1).Some?
    requires GridIndex(nx, ny, nz, x1, y1, z1) == GridIndex(nx, ny, nz, x2, y2, z2)
    ensures x1 == x2 && y1 == y2 && z1 == z2
  {
    FlattenInjective(x1, y1, z1, x2, y2, z2, nx, ny);
  }

  /** Distinct cells give distinct in-bounds indices. */
  lemma {:induction false} InBoundsIndicesDistinct(nx: nat, ny: nat, nz: nat, cells: seq<Cell>)
    requires Distinct(cells)
    ensures Distinct(InBoundsIndices(nx, ny, nz, cells))
  {
    if cells != [] {
      var front := cells[..|cells| - 1];
      var c := cells[|cells| - 1];
      InBoundsIndicesDistinct(nx, ny, nz, front);
      match GridIndex(nx, ny, nz, c.x, c.y, c.z)
      case None =>
        assert InBoundsIndices(nx, ny, nz, cells) == InBoundsIndices(nx, ny, nz, front);
      case Some(n) =>
        forall k | 0 <= k < |front|
          ensures GridIndex(nx, ny, nz, front[k].x, front[k].y, front[k].z) != Some(n)
        {
          if GridIndex(nx, ny, nz, front[k].x, front[k].y, front[k].z) == Some(n) {
            GridIndexInjective(nx, ny, nz, front[k].x, front[k].y, front[k].z, c.x, c.y, c.z);
          }
        }
        NotInBoundsIndices(nx, ny, nz, front, n);
        assert InBoundsIndices(nx, ny, nz, cells) == InBoundsIndices(nx, ny, nz, front) + [n];
    }
  }

  /** An index no cell maps to is not among the in-bounds indices. */
  lemma {:induction false} NotInBoundsIndices(nx: nat, ny: nat, nz: nat, cells: seq<Cell>, n: nat)
    requires forall k :: 0 <= k < |cells| ==> GridIndex(nx, ny, nz, cells[k].x, cells[k].y, cells[k].z) != Some(n)
    ensures n !in InBoundsIndices(nx, ny, nz, cells)
  {
    if cells != [] {
      NotInBoundsIndices(nx, ny, nz, cells[..|cells| - 1], n);
    }
  }

  /** A sequence without repetitions holds each value at most once. */
  lemma {:induction false} DistinctMultiplicity(s: seq<nat>, i: nat)
    requires Distinct(s)
    ensures multiset(s)[i] == if i in s then 1 else 0
  {
    if s != [] {
      var front := s[..|s| - 1];
      assert s == front + [s[|s| - 1]];
      DistinctMultiplicity(front, i);
    }
  }

  /** Distinct cells put each index at most once among the in-bounds indices. */
  lemma DistinctCellsIndexOnce(nx: nat, ny: nat, nz: nat, cells: seq<Cell>, j: nat)
    requires Distinct(cells)
    ensures multiset(InBoundsIndices(nx, ny, nz, cells))[j] == if j in InBoundsIndices(nx, ny, nz, cells) then 1 else 0
  {
    InBoundsIndicesDistinct(nx, ny, nz, cells);
    DistinctMultiplicity(InBoundsIndices(nx, ny, nz, cells), j);
  }

  /** Because a volume yields each cell at most once, `add_energy` adds the amount exactly once
      to each in-bounds cell of the volume and leaves every other cell's energy alone. */
  lemma AddEnergyOncePerCell(s: SimulationState, volume: AABBVolume, amount: real, j: nat)
    requires s.cellSize != 0.0 && j < |s.energy|
    ensures Paint(s.energy, s.cellsX, s.cellsY, s.cellsZ, CellSeq(volume, s.cellSize), Add(amount))[j]
         == if j in s.VolumeIndices(volume) then s.energy[j] + amount else s.energy[j]
  {
    var cells := CellSeq(volume, s.cellSize);
    CellSeqDistinct(volume, s.cellSize);
    DistinctCellsIndexOnce(s.cellsX, s.cellsY, s.cellsZ, cells, j);
    PaintAdds(s.energy, s.cellsX, s.cellsY, s.cellsZ, cells, amount, j);
    assert Times(1, amount) == amount;
  }
}
