/** The dummy energy table attached to the arithmetic operators of the bit-vector datatypes. */
module DatatypesEnergy {
  import EnergyPlugin

  /** `get_energy`: the energy of the operator method `name` on `nbits` bits.
      The per-operator helpers are the same as the energy plugin's. */
  function Energy(name: string, nbits: int): (r: int)
    ensures name == "__add__" ==> r == nbits
    ensures name == "__sub__" ==> r == 2 * nbits
    ensures name == "__mul__" ==> r == 4 * nbits
    ensures name !in {"__add__", "__sub__", "__mul__"} ==> r == 0
  {
    if name == "__add__" then EnergyPlugin.AddEnergy(nbits)
    else if name == "__sub__" then EnergyPlugin.SubEnergy(nbits)
    else if name == "__mul__" then EnergyPlugin.MulEnergy(nbits)
    else 0
  }

  /** The energy is additive in the width and never negative for a
      non-negative width. */
  lemma EnergyIsAdditive(name: string, a: int, b: int)
    ensures Energy(name, a + b) == Energy(name, a) + Energy(name, b)
    ensures a >= 0 ==> Energy(name, a) >= 0
  {
  }
}
