/** The dummy energy table of the energy plugin and its accumulation rule. */
module EnergyPlugin {
  import opened Wrappers

  datatype Group = Comp | Seq | Misc

  function AddEnergy(nbits: int): int { 1 * nbits }
  function SubEnergy(nbits: int): int { 2 * nbits }
  function MulEnergy(nbits: int): int { 4 * nbits }
  function PipelineEnergy(nbits: int): int { 8 * nbits }
  function RegisterEnergy(nbits: int): int { 7 * nbits }

  /** The operation names the table knows. */
  predicate Known(name: string) {
    name in {"add", "sub", "mul", "pipeline", "register"}
  }

  /** `get_group_energy`: the group of an operation and the energy it costs on `nbits` bits. */
  function GroupEnergy(name: string, nbits: int): (r: (Group, int))
    ensures name == "add" ==> r == (Comp, nbits)
    ensures name == "sub" ==> r == (Comp, 2 * nbits)
    ensures name == "mul" ==> r == (Comp, 4 * nbits)
    ensures name == "pipeline" ==> r == (Seq, 8 * nbits)
    ensures name == "register" ==> r == (Seq, 7 * nbits)
    ensures !Known(name) ==> r == (Misc, 1)
  {
    if name == "add" then (Comp, AddEnergy(nbits))
    else if name == "sub" then (Comp, SubEnergy(nbits))
    else if name == "mul" then (Comp, MulEnergy(nbits))
    else if name == "pipeline" then (Seq, PipelineEnergy(nbits))
    else if name == "register" then (Seq, RegisterEnergy(nbits))
    else (Misc, 1)
  }

  /** For every known operation the energy is linear in the width and zero at
      width zero, and the group does not depend on the width. */
  lemma KnownEnergyIsLinear(name: string, a: int, b: int)
    requires Known(name)
    ensures GroupEnergy(name, a + b).1 == GroupEnergy(name, a).1 + GroupEnergy(name, b).1
    ensures GroupEnergy(name, 0).1 == 0
    ensures GroupEnergy(name, a).0 == GroupEnergy(name, b).0 != Misc
  {
  }

  /** An unknown operation always costs 1 in group `misc`, whatever its width. */
  lemma UnknownEnergyIsConstant(name: string, a: int, b: int)
    requires !Known(name)
    ensures GroupEnergy(name, a) == GroupEnergy(name, b) == (Misc, 1)
  {
  }

  /** A component's `energy[group][name]` table; a missing key is an entry
      never written. */
  type EnergyTable = map<(Group, string), int>

  /** `update_energy` with the calling component passed explicitly (None when
      no enclosing component has an `energy` table): the first update of a
      key sets it, later ones add to it. */
  function UpdateEnergy(caller: Option<EnergyTable>, name: string, nbits: int): (r: Option<EnergyTable>)
    ensures caller.None? ==> r.None?
    ensures caller.Some? ==> r.Some? && r.value.Keys == caller.value.Keys + {(GroupEnergy(name, nbits).0, name)}
    ensures caller.Some? ==> var k := (GroupEnergy(name, nbits).0, name);
      r.value[k] == (if k in caller.value then caller.value[k] else 0) + GroupEnergy(name, nbits).1
    ensures caller.Some? ==> forall k :: k in caller.value && k != (GroupEnergy(name, nbits).0, name) ==>
      r.value[k] == caller.value[k]
  {
    var (group, energy) := GroupEnergy(name, nbits);
    match caller
    case None => None
    case Some(t) =>
      if (group, name) !in t then Some(t[(group, name) := energy])
      else Some(t[(group, name) := t[(group, name)] + energy])
  }

  /** One recorded operation: its name and its width. */
  datatype Op = Op(name: string, nbits: int)

  function ApplyAll(t: EnergyTable, ops: seq<Op>): EnergyTable
    decreases |ops|
  {
    if |ops| == 0 then t
    else ApplyAll(UpdateEnergy(Some(t), ops[0].name, ops[0].nbits).value, ops[1..])
  }

  /** The energy of the operations among `ops` that land on key `k`. */
  function EnergyOn(k: (Group, string), ops: seq<Op>): int
    decreases |ops|
  {
    if |ops| == 0 then 0
    else
      var (g, e) := GroupEnergy(ops[0].name, ops[0].nbits);
      (if (g, ops[0].name) == k then e else 0) + EnergyOn(k, ops[1..])
  }

  /** Accumulation: after a sequence of updates each entry holds its earlier
      value plus the sum of the energies of the updates on that key. */
  lemma {:induction false} ApplyAllSums(t: EnergyTable, ops: seq<Op>, k: (Group, string))
    ensures k in ApplyAll(t, ops) <==> k in t || EnergyKeyUsed(k, ops)
    ensures k in ApplyAll(t, ops) ==>
      ApplyAll(t, ops)[k] == (if k in t then t[k] else 0) + EnergyOn(k, ops)
    decreases |ops|
  {
    if |ops| > 0 {
      var t1 := UpdateEnergy(Some(t), ops[0].name, ops[0].nbits).value;
      ApplyAllSums(t1, ops[1..], k);
      EnergyKeyUsedCons(k, ops);
    }
  }

  lemma EnergyKeyUsedCons(k: (Group, string), ops: seq<Op>)
    requires |ops| > 0
    ensures EnergyKeyUsed(k, ops) <==>
      (GroupEnergy(ops[0].name, ops[0].nbits).0, ops[0].name) == k || EnergyKeyUsed(k, ops[1..])
  {
    if EnergyKeyUsed(k, ops[1..]) {
      var i :| 0 <= i < |ops[1..]| && (GroupEnergy(ops[1..][i].name, ops[1..][i].nbits).0, ops[1..][i].name) == k;
      assert ops[1..][i] == ops[i + 1];
    }
    if EnergyKeyUsed(k, ops) {
      var i :| 0 <= i < |ops| && (GroupEnergy(ops[i].name, ops[i].nbits).0, ops[i].name) == k;
      if i > 0 {
        assert ops[1..][i - 1] == ops[i];
      }
    }
  }

  /** Some operation in `ops` lands on key `k`. */
  predicate EnergyKeyUsed(k: (Group, string), ops: seq<Op>) {
    exists i :: 0 <= i < |ops| && (GroupEnergy(ops[i].name, ops[i].nbits).0, ops[i].name) == k
  }
}
