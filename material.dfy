/** The physical description of one material (`src/material.rs`). */
module Materials {

  /**
   * A material: density in kg/m^3, specific heat in J/(kg K) and a single thermal
   * conductivity. Dafny's structural equality on this datatype is the field-wise
   * equality that `#[derive(PartialEq)]` gives the Rust struct.
   */
  datatype Material = Material(density: real, specificHeat: real, thermalConductivity: real)

  /** A material that conducts no heat. */
  predicate IsInsulator(m: Material)
  {
    m.thermalConductivity == 0.0
  }

  /** `Material::blank`: unit density and specific heat, a perfect insulator. */
  function Blank(): (m: Material)
    ensures m.density == 1.0
    ensures m.specificHeat == 1.0
    ensures IsInsulator(m)
  {
    Material(1.0, 1.0, 0.0)
  }

  /** Two materials are equal exactly when all three fields are equal. */
  lemma EqualityIsFieldwise(a: Material, b: Material)
    ensures a == b <==> (a.density == b.density && a.specificHeat == b.specificHeat
                         && a.thermalConductivity == b.thermalConductivity)
  {
  }
}
