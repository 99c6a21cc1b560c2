/** The blank thermal simulation of `src/simulate.rs`. */
module Simulate {
  import opened Numeric
  import opened Materials

  /**
   * A grid of `cellsX` by `cellsY` by `cellsZ` cells of side `cellSize`, a table of materials,
   * and per cell an energy and an index into that table.
   */
  datatype ThermalSimulation = ThermalSimulation(
    cellsX: nat, cellsY: nat, cellsZ: nat,
    cellSize: real,
    materialMap: seq<Material>,
    energy: seq<real>,
    materials: seq<nat>)

  /** The per-cell vectors cover the grid and every material index names an entry of the table. */
  predicate WellFormed(t: ThermalSimulation)
  {
    |t.energy| == t.cellsX * t.cellsY * t.cellsZ &&
    |t.materials| == t.cellsX * t.cellsY * t.cellsZ &&
    forall i :: 0 <= i < |t.materials| ==> t.materials[i] < |t.materialMap|
  }

  /** The material of cell `i` of a well-formed simulation. */
  function MaterialOf(t: ThermalSimulation, i: nat): Material
    requires WellFormed(t) && i < |t.materials|
  {
    t.materialMap[t.materials[i]]
  }

  /**
   * `ThermalSimulation::new`: the cell counts round each size divided by the cell size down, the
   * material table holds only the blank material, and every cell has zero energy and material 0.
   */
  function NewThermalSimulation(sizeX: real, sizeY: real, sizeZ: real, cellSize: real): (t: ThermalSimulation)
    requires cellSize != 0.0
    ensures t.cellsX == CellCountFloor(sizeX, cellSize)
    ensures t.cellsY == CellCountFloor(sizeY, cellSize)
    ensures t.cellsZ == CellCountFloor(sizeZ, cellSize)
    ensures t.cellSize == cellSize
    ensures t.materialMap == [Blank()]
    ensures |t.energy| == t.cellsX * t.cellsY * t.cellsZ
    ensures forall i :: 0 <= i < |t.energy| ==> t.energy[i] == 0.0
    ensures |t.materials| == t.cellsX * t.cellsY * t.cellsZ
    ensures forall i :: 0 <= i < |t.materials| ==> t.materials[i] == 0
    ensures WellFormed(t)
  {
    BlankGrid(CellCountFloor(sizeX, cellSize), CellCountFloor(sizeY, cellSize), CellCountFloor(sizeZ, cellSize), cellSize)
  }

  /** The struct `new` builds from its cell counts: the blank table and one zero per cell. */
  function BlankGrid(cellsX: nat, cellsY: nat, cellsZ: nat, cellSize: real): (t: ThermalSimulation)
    ensures t.cellsX == cellsX && t.cellsY == cellsY && t.cellsZ == cellsZ && t.cellSize == cellSize
    ensures t.materialMap == [Blank()]
    ensures |t.energy| == cellsX * cellsY * cellsZ && |t.materials| == cellsX * cellsY * cellsZ
    ensures forall i :: 0 <= i < |t.energy| ==> t.energy[i] == 0.0
    ensures forall i :: 0 <= i < |t.materials| ==> t.materials[i] == 0
  {
    var n := cellsX * cellsY * cellsZ;
    ThermalSimulation(cellsX, cellsY, cellsZ, cellSize, [Blank()], seq(n, _ => 0.0), seq(n, _ => 0))
  }

  /** Every cell of a new simulation is made of the blank material and holds no energy. */
  lemma NewSimulationIsBlank(sizeX: real, sizeY: real, sizeZ: real, cellSize: real, i: nat)
    requires cellSize != 0.0
    requires i < |NewThermalSimulation(sizeX, sizeY, sizeZ, cellSize).materials|
    ensures MaterialOf(NewThermalSimulation(sizeX, sizeY, sizeZ, cellSize), i) == Blank()
    ensures NewThermalSimulation(sizeX, sizeY, sizeZ, cellSize).energy[i] == 0.0
  {
  }
}
