/** RTLIR instance types: unpacked arrays, ports, wires, net wires, constants,
    interface views and components, with the array operations and the
    expansion of arrays into per-element entries (`_unpack`). */
module RTLIRType {
  import opened Wrappers
  import opened Strings
  import opened RTLIRValues

  /** The RTLIR data type a signal carries; compared structurally. */
  datatype DataType = Vector(nbits: int) | Struct(name: string) | PackedArray(dimSizes: seq<int>, elem: DataType)

  /** A component's or interface's attributes: a Python dict, kept in insertion order. */
  type Properties = seq<(string, RType)>

  datatype RType =
    | NoneType
    | Array(dimSizes: seq<int>, subType: RType, obj: Option<PyObj>, unpacked: bool)
    | Port(direction: string, dtype: DataType, unpacked: bool)
    | Wire(dtype: DataType, unpacked: bool)
    | NetWire(dtype: DataType, unpacked: bool)
    | Const(dtype: DataType, obj: Option<PyObj>, unpacked: bool)
    | InterfaceView(name: string, properties: Properties, unpacked: bool)
    | Component(name: string, params: seq<(string, PyObj)>, properties: Properties, unpacked: bool)

  /** The Python class of a type, for `isinstance` tests. */
  datatype Kind = KNone | KArray | KPort | KWire | KNetWire | KConst | KInterfaceView | KComponent

  function KindOf(t: RType): Kind {
    match t
    case NoneType => KNone
    case Array(_, _, _, _) => KArray
    case Port(_, _, _) => KPort
    case Wire(_, _) => KWire
    case NetWire(_, _) => KNetWire
    case Const(_, _, _) => KConst
    case InterfaceView(_, _, _) => KInterfaceView
    case Component(_, _, _, _) => KComponent
  }

  /** `_is_of_type`: `t` is of one of the kinds, or is an array of one of them. */
  predicate IsOfType(t: RType, kinds: set<Kind>) {
    KindOf(t) in kinds || (t.Array? && KindOf(t.subType) in kinds)
  }

  //-----------------------------------------------------------------------
  // Array
  //-----------------------------------------------------------------------

  function Sum(s: seq<int>): int {
    if |s| == 0 then 0 else s[0] + Sum(s[1..])
  }

  datatype TypeError = SubTypeIsArray | NoDimension | NoElement | NotAnArray | NotUnpackable

  /** What `Array.__init__` accepts. */
  predicate WellFormedArray(t: RType) {
    t.Array? && |t.dimSizes| >= 1 && Sum(t.dimSizes) > 0 && !t.subType.Array?
  }

  /** `Array(dim_sizes, sub_type, obj, unpacked)` with its three assertions as failures. */
  function MakeArray(dims: seq<int>, sub: RType, obj: Option<PyObj>, unpacked: bool): (r: Result<RType, TypeError>)
    ensures r.Success? <==> !sub.Array? && |dims| >= 1 && Sum(dims) > 0
    ensures r.Success? ==> WellFormedArray(r.value) && r.value == Array(dims, sub, obj, unpacked)
    ensures sub.Array? ==> r == Failure(SubTypeIsArray)
  {
    if sub.Array? then Failure(SubTypeIsArray)
    else if |dims| < 1 then Failure(NoDimension)
    else if Sum(dims) <= 0 then Failure(NoElement)
    else Success(Array(dims, sub, obj, unpacked))
  }

  /** Arrays whose dimension list is non-empty and whose sub-type is not an array. */
  predicate Shaped(t: RType) {
    t.Array? ==> |t.dimSizes| >= 1 && !t.subType.Array?
  }

  /** The number of unpacked dimensions. */
  function Rank(t: RType): nat {
    if t.Array? then |t.dimSizes| else 0
  }

  /** `get_next_dim_type`: a copy without the first dimension, or the
      sub-type once a single dimension is left. The receiver is a value and
      so is never changed. */
  function NextDim(t: RType): (r: RType)
    requires t.Array? && Shaped(t)
    ensures Shaped(r) && Rank(r) == Rank(t) - 1
    ensures |t.dimSizes| == 1 ==> r == t.subType
    ensures |t.dimSizes| > 1 ==> r == t.(dimSizes := t.dimSizes[1..])
  {
    if |t.dimSizes| == 1 then t.subType else t.(dimSizes := t.dimSizes[1..])
  }

  /** `get_next_dim_type` applied `k` times. */
  function Peel(t: RType, k: nat): (r: RType)
    requires Shaped(t) && k <= Rank(t)
    ensures Shaped(r) && Rank(r) == Rank(t) - k
    decreases k
  {
    if k == 0 then t else Peel(NextDim(t), k - 1)
  }

  /** Peeling every dimension of an array yields its sub-type, and peeling
      `k` of them leaves the last dimensions. */
  lemma {:induction false} PeelDims(t: RType, k: nat)
    requires t.Array? && Shaped(t) && k <= Rank(t)
    ensures k == Rank(t) ==> Peel(t, k) == t.subType
    ensures k < Rank(t) ==> Peel(t, k) == t.(dimSizes := t.dimSizes[k..])
    decreases k
  {
    if k > 0 {
      var t1 := NextDim(t);
      if |t.dimSizes| == 1 {
        assert Peel(t1, k - 1) == t1;
      } else {
        PeelDims(t1, k - 1);
        assert t.dimSizes[1..][k - 1..] == t.dimSizes[k..];
      }
    } else {
      assert t.dimSizes[0..] == t.dimSizes;
    }
  }

  /** With every dimension positive, dropping a dimension keeps an array that
      `Array.__init__` would accept. */
  lemma NextDimWellFormed(t: RType)
    requires WellFormedArray(t) && |t.dimSizes| > 1
    requires forall i :: 0 <= i < |t.dimSizes| ==> t.dimSizes[i] > 0
    ensures WellFormedArray(NextDim(t))
  {
    assert Sum(t.dimSizes) == t.dimSizes[0] + Sum(t.dimSizes[1..]);
    assert t.dimSizes[1..][0] > 0;
    SumPositive(t.dimSizes[1..]);
  }

  lemma {:induction false} SumPositive(s: seq<int>)
    requires |s| >= 1 && forall i :: 0 <= i < |s| ==> s[i] > 0
    ensures Sum(s) > 0
  {
    if |s| > 1 {
      SumPositive(s[1..]);
    }
  }

  function Pow2(k: nat): (r: nat)
    ensures r >= 1
  {
    if k == 0 then 1 else 2 * Pow2(k - 1)
  }

  /** The integer ceiling of log2: the fewest bits that can address `n` elements. */
  function CeilLog2(n: int): (r: nat)
    requires n >= 1
    ensures Pow2(r) >= n
    ensures r > 0 ==> Pow2(r - 1) < n
  {
    if n <= 1 then 0 else 1 + CeilLog2((n + 1) / 2)
  }

  /** `get_index_width`: 1 bit for arrays whose first dimension is at most 1,
      otherwise the fewest bits that can index every element of it. */
  function IndexWidth(t: RType): (r: nat)
    requires t.Array? && |t.dimSizes| >= 1
    ensures t.dimSizes[0] <= 1 ==> r == 1
    ensures t.dimSizes[0] > 1 ==> r >= 1 && Pow2(r - 1) < t.dimSizes[0] <= Pow2(r)
  {
    var n := t.dimSizes[0];
    if n <= 1 then 1 else CeilLog2(n)
  }

  //-----------------------------------------------------------------------
  // _unpack
  //-----------------------------------------------------------------------

  /** The element name `id_[idx]`. */
  function Indexed(id: string, idx: nat): string {
    id + "[" + NatToString(idx) + "]"
  }

  /** `_unpack(id_, Type)`: a non-array names itself; an array yields, for
      each index of its first dimension, the element entry followed by the
      expansion of that element. A leaf element therefore appears twice. */
  function Unpack(id: string, t: RType): seq<(string, RType)>
    requires Shaped(t)
    decreases Rank(t), 1, 0
  {
    if !t.Array? then [(id, t)] else UnpackFrom(id, t, 0)
  }

  /** The loop of `_unpack` from index `i` of the first dimension on. */
  function UnpackFrom(id: string, t: RType, i: nat): seq<(string, RType)>
    requires t.Array? && Shaped(t)
    decreases Rank(t), 0, if i < t.dimSizes[0] then t.dimSizes[0] - i else 0
  {
    if i >= t.dimSizes[0] then []
    else
      var n := Indexed(id, i);
      [(n, NextDim(t))] + Unpack(n, NextDim(t)) + UnpackFrom(id, t, i + 1)
  }

  /** The suffix `[i1][i2]...[ik]` of an element name. */
  function Suffix(idx: seq<nat>): string {
    if |idx| == 0 then "" else "[" + NatToString(idx[0]) + "]" + Suffix(idx[1..])
  }

  /** `idx` indexes the first `|idx|` dimensions of `t`, each within bounds. */
  predicate ValidIndex(idx: seq<nat>, t: RType) {
    |idx| <= Rank(t) && forall k :: 0 <= k < |idx| ==> idx[k] < t.dimSizes[k]
  }

  lemma ValidIndexTail(idx: seq<nat>, t: RType)
    requires t.Array? && Shaped(t) && |idx| >= 1 && ValidIndex(idx, t)
    ensures ValidIndex(idx[1..], NextDim(t))
  {
  }

  lemma ValidIndexCons(i: nat, idx: seq<nat>, t: RType)
    requires t.Array? && Shaped(t) && i < t.dimSizes[0] && ValidIndex(idx, NextDim(t))
    ensures ValidIndex([i] + idx, t)
  {
  }

  lemma {:induction false} UnpackFromContains(id: string, t: RType, i: nat, j: nat, e: (string, RType))
    requires t.Array? && Shaped(t) && i <= j < t.dimSizes[0]
    requires e == (Indexed(id, j), NextDim(t)) || e in Unpack(Indexed(id, j), NextDim(t))
    ensures e in UnpackFrom(id, t, i)
    decreases j - i
  {
    if i < j {
      UnpackFromContains(id, t, i + 1, j, e);
    }
  }

  /** Completeness of `_unpack`: every index prefix `id_[i1]...[ik]`, for k
      from 1 to the rank and each index below its dimension, is named, with
      the type left after peeling k dimensions. */
  lemma {:induction false} UnpackComplete(id: string, t: RType, idx: seq<nat>)
    requires t.Array? && Shaped(t)
    requires 1 <= |idx| && ValidIndex(idx, t)
    ensures (id + Suffix(idx), Peel(t, |idx|)) in Unpack(id, t)
    decreases |idx|
  {
    var n := Indexed(id, idx[0]);
    var t1 := NextDim(t);
    var rest := idx[1..];
    SuffixCons(id, idx[0], rest);
    assert [idx[0]] + rest == idx;
    PeelCons(t, |rest|);
    var e := (id + Suffix(idx), Peel(t, |idx|));
    if |rest| == 0 {
      assert n + Suffix(rest) == n;
    } else {
      ValidIndexTail(idx, t);
      UnpackComplete(n, t1, rest);
    }
    UnpackFromContains(id, t, 0, idx[0], e);
    assert Unpack(id, t) == UnpackFrom(id, t, 0);
  }

  lemma SuffixCons(id: string, i: nat, idx: seq<nat>)
    ensures id + Suffix([i] + idx) == Indexed(id, i) + Suffix(idx)
  {
    assert ([i] + idx)[1..] == idx;
  }

  lemma PeelCons(t: RType, k: nat)
    requires t.Array? && Shaped(t) && k + 1 <= Rank(t)
    ensures Peel(t, k + 1) == Peel(NextDim(t), k)
    ensures Peel(NextDim(t), 0) == NextDim(t)
  {
  }

  /** An entry of `_unpack` names an index prefix of `id_` with the matching type. */
  predicate NamesPrefix(id: string, t: RType, e: (string, RType), idx: seq<nat>)
    requires Shaped(t)
  {
    ValidIndex(idx, t) && e == (id + Suffix(idx), Peel(t, |idx|))
  }

  /** Soundness of `_unpack`: every entry names an index prefix within bounds
      (of length at least 1 when `t` is an array) with the type peeled to
      that depth. */
  lemma {:induction false} UnpackSound(id: string, t: RType, e: (string, RType))
    requires Shaped(t) && e in Unpack(id, t)
    ensures exists idx :: NamesPrefix(id, t, e, idx) && (t.Array? ==> |idx| >= 1)
    decreases Rank(t), 1, 0
  {
    if !t.Array? {
      assert e == (id, t);
      assert id + Suffix([]) == id;
      assert NamesPrefix(id, t, e, []);
    } else {
      UnpackFromSound(id, t, 0, e);
    }
  }

  lemma {:induction false} UnpackFromSound(id: string, t: RType, i: nat, e: (string, RType))
    requires t.Array? && Shaped(t) && e in UnpackFrom(id, t, i)
    ensures exists idx :: NamesPrefix(id, t, e, idx) && |idx| >= 1
    decreases Rank(t), 0, if i < t.dimSizes[0] then t.dimSizes[0] - i else 0
  {
    assert i < t.dimSizes[0];
    var n := Indexed(id, i);
    var t1 := NextDim(t);
    var head := [(n, t1)];
    var mid := Unpack(n, t1);
    var tail := UnpackFrom(id, t, i + 1);
    assert UnpackFrom(id, t, i) == head + mid + tail;
    if e in head {
      ElementNamesPrefix(id, t, i);
    } else if e in mid {
      UnpackSound(n, t1, e);
      var idx :| NamesPrefix(n, t1, e, idx);
      NestedNamesPrefix(id, t, i, e, idx);
    } else {
      assert e in tail;
      UnpackFromSound(id, t, i + 1, e);
    }
  }

  lemma ElementNamesPrefix(id: string, t: RType, i: nat)
    requires t.Array? && Shaped(t) && i < t.dimSizes[0]
    ensures NamesPrefix(id, t, (Indexed(id, i), NextDim(t)), [i])
  {
    SuffixCons(id, i, []);
    assert [i] + [] == [i];
    assert Indexed(id, i) + Suffix([]) == Indexed(id, i);
    PeelCons(t, 0);
    assert ValidIndex([i], t);
  }

  lemma NestedNamesPrefix(id: string, t: RType, i: nat, e: (string, RType), idx: seq<nat>)
    requires t.Array? && Shaped(t) && i < t.dimSizes[0]
    requires NamesPrefix(Indexed(id, i), NextDim(t), e, idx)
    ensures NamesPrefix(id, t, e, [i] + idx)
  {
    ValidIndexCons(i, idx, t);
    SuffixCons(id, i, idx);
    PeelCons(t, |idx|);
  }

  /** Every name `_unpack` produces for an array extends `id_` by at least one index. */
  lemma UnpackNamesExtendId(id: string, t: RType, e: (string, RType))
    requires t.Array? && Shaped(t) && e in Unpack(id, t)
    ensures |e.0| > |id| && e.0[..|id|] == id && e.0[|id|] == '['
  {
    UnpackSound(id, t, e);
    var idx :| NamesPrefix(id, t, e, idx) && |idx| >= 1;
    assert e.0 == id + ("[" + NatToString(idx[0]) + "]" + Suffix(idx[1..]));
  }

  /** Index paths are recovered from their bracketed suffix: `[i1]...[ik]` is injective. */
  lemma {:induction false} SuffixInjective(a: seq<nat>, b: seq<nat>)
    requires Suffix(a) == Suffix(b)
    ensures a == b
    decreases |a|
  {
    if |a| > 0 && |b| > 0 {
      var da := NatToString(a[0]);
      var db := NatToString(b[0]);
      assert da == db && Suffix(a[1..]) == Suffix(b[1..]) by {
        assert Suffix(a) == "[" + da + "]" + Suffix(a[1..]);
        assert Suffix(b) == "[" + db + "]" + Suffix(b[1..]);
        BracketedDigits(da, Suffix(a[1..]), db, Suffix(b[1..]));
      }
      assert a[0] == b[0] by {
        NatToStringRoundTrip(a[0]);
        NatToStringRoundTrip(b[0]);
      }
      SuffixInjective(a[1..], b[1..]);
      HeadTail(a);
      HeadTail(b);
    }
  }

  /** `[x]rx == [y]ry` with digit strings `x`, `y` forces `x == y` and `rx == ry`. */
  lemma BracketedDigits(x: string, rx: string, y: string, ry: string)
    requires AllDigits(x) && AllDigits(y)
    requires "[" + x + "]" + rx == "[" + y + "]" + ry
    ensures x == y && rx == ry
  {
    DigitsAvoid(x, ']');
    DigitsAvoid(y, ']');
    assert ("[" + x + "]" + rx)[1..] == x + [']'] + rx;
    assert ("[" + y + "]" + ry)[1..] == y + [']'] + ry;
    SplitAtConcat(x, ']', rx);
    SplitAtConcat(y, ']', ry);
  }

  /** Entries of `_unpack` that share a name share a type, so the order in
      which the dict receives them does not matter. */
  lemma UnpackConsistent(id: string, t: RType, e1: (string, RType), e2: (string, RType))
    requires Shaped(t) && e1 in Unpack(id, t) && e2 in Unpack(id, t) && e1.0 == e2.0
    ensures e1.1 == e2.1
  {
    UnpackSound(id, t, e1);
    UnpackSound(id, t, e2);
    var i1 :| NamesPrefix(id, t, e1, i1);
    var i2 :| NamesPrefix(id, t, e2, i2);
    assert (id + Suffix(i1))[|id|..] == Suffix(i1);
    assert (id + Suffix(i2))[|id|..] == Suffix(i2);
    SuffixInjective(i1, i2);
  }

  //-----------------------------------------------------------------------
  // Properties as a Python dict, and _add_packed_instances
  //-----------------------------------------------------------------------

  predicate DistinctKeys(d: Properties) {
    forall i, j :: 0 <= i < j < |d| ==> d[i].0 != d[j].0
  }

  function Lookup(d: Properties, k: string): (r: Option<RType>)
    ensures r.Some? <==> exists i :: 0 <= i < |d| && d[i].0 == k
    ensures r.Some? ==> (k, r.value) in d
  {
    if |d| == 0 then None
    else if d[0].0 == k then Some(d[0].1)
    else Lookup(d[1..], k)
  }

  /** `d[k] = v`: replaces the value of an existing key in place, or appends a new key. */
  function DictSet(d: Properties, k: string, v: RType): (r: Properties)
    requires DistinctKeys(d)
    ensures DistinctKeys(r)
    ensures Lookup(r, k) == Some(v)
    ensures forall k' :: k' != k ==> Lookup(r, k') == Lookup(d, k')
  {
    if |d| == 0 then [(k, v)]
    else if d[0].0 == k then
      assert forall k' :: k' != k ==> Lookup(d, k') == Lookup(d[1..], k');
      [(k, v)] + d[1..]
    else
      assert forall i :: 0 <= i < |d[1..]| ==> d[1..][i].0 != d[0].0;
      assert Lookup(d[1..], d[0].0).None?;
      var rest := DictSet(d[1..], k, v);
      assert Lookup(rest, d[0].0).None?;
      assert forall k' :: k' != d[0].0 ==> Lookup([d[0]] + rest, k') == Lookup(rest, k');
      [d[0]] + rest
  }

  /** `_is_unpacked()`; `NoneType` has no `unpacked` attribute and counts as packed. */
  predicate IsUnpacked(t: RType) {
    !t.NoneType? && t.unpacked
  }

  /** Sets the `unpacked` attribute; every type but `NoneType` has one. */
  function MarkUnpacked(t: RType): (r: RType)
    requires !t.NoneType?
    ensures IsUnpacked(r) && KindOf(r) == KindOf(t)
  {
    t.(unpacked := true)
  }

  function SetAll(d: Properties, es: seq<(string, RType)>): (r: Properties)
    requires DistinctKeys(d)
    requires forall i :: 0 <= i < |es| ==> !es[i].1.NoneType?
    ensures DistinctKeys(r)
    ensures forall k :: (forall i :: 0 <= i < |es| ==> es[i].0 != k) ==> Lookup(r, k) == Lookup(d, k)
    ensures forall i :: 0 <= i < |es| ==> Lookup(r, es[i].0).Some? && IsUnpacked(Lookup(r, es[i].0).value)
    ensures forall k :: Lookup(r, k).Some? ==> Lookup(d, k).Some? || exists i :: 0 <= i < |es| && es[i].0 == k
    ensures forall i :: 0 <= i < |es| && LastWith(es, i) ==> Lookup(r, es[i].0) == Some(MarkUnpacked(es[i].1))
    decreases |es|
  {
    if |es| == 0 then d
    else
      var d1 := DictSet(d, es[0].0, MarkUnpacked(es[0].1));
      var r := SetAll(d1, es[1..]);
      SetAllKeeps(d, es, d1, r);
      SetAllOnly(d, es, d1, r);
      SetAllLast(d, es, d1, r);
      SetAllStores(es, r);
      r
  }

  /** No later entry of `es` has the name of entry `i`: a dict keeps the value stored last. */
  predicate LastWith(es: seq<(string, RType)>, i: int)
    requires 0 <= i < |es|
  {
    forall j :: i < j < |es| ==> es[j].0 != es[i].0
  }

  /** The last entry with the name of entry `i`. */
  lemma LastIndex(es: seq<(string, RType)>, i: nat) returns (j: nat)
    requires i < |es|
    ensures i <= j < |es| && es[j].0 == es[i].0 && LastWith(es, j)
    decreases |es| - i
  {
    if LastWith(es, i) {
      j := i;
    } else {
      var j1 :| i < j1 < |es| && es[j1].0 == es[i].0;
      j := LastIndex(es, j1);
    }
  }

  /** One step of `SetAll`: the entry stored last under a name is the one kept. */
  lemma SetAllLast(d: Properties, es: seq<(string, RType)>, d1: Properties, r: Properties)
    requires DistinctKeys(d) && |es| > 0
    requires forall i :: 0 <= i < |es| ==> !es[i].1.NoneType?
    requires d1 == DictSet(d, es[0].0, MarkUnpacked(es[0].1))
    requires forall k :: (forall i :: 0 <= i < |es[1..]| ==> es[1..][i].0 != k) ==> Lookup(r, k) == Lookup(d1, k)
    requires forall i :: 0 <= i < |es[1..]| && LastWith(es[1..], i) ==>
      Lookup(r, es[1..][i].0) == Some(MarkUnpacked(es[1..][i].1))
    ensures forall i :: 0 <= i < |es| && LastWith(es, i) ==> Lookup(r, es[i].0) == Some(MarkUnpacked(es[i].1))
  {
    var t := es[1..];
    forall i | 0 <= i < |es| && LastWith(es, i)
      ensures Lookup(r, es[i].0) == Some(MarkUnpacked(es[i].1))
    {
      if i > 0 {
        assert es[i] == t[i - 1];
        assert LastWith(t, i - 1) by {
          forall j | i - 1 < j < |t| ensures t[j].0 != t[i - 1].0 {
            assert t[j] == es[j + 1];
          }
        }
      } else {
        var k := es[0].0;
        assert forall j :: 0 <= j < |t| ==> t[j].0 != k by {
          forall j | 0 <= j < |t| ensures t[j].0 != k {
            assert t[j] == es[j + 1];
          }
        }
        assert Lookup(r, k) == Lookup(d1, k);
      }
    }
  }

  /** One step of `SetAll`: keys outside the entries keep their value. */
  lemma SetAllKeeps(d: Properties, es: seq<(string, RType)>, d1: Properties, r: Properties)
    requires DistinctKeys(d) && |es| > 0 && !es[0].1.NoneType?
    requires d1 == DictSet(d, es[0].0, MarkUnpacked(es[0].1))
    requires forall k :: (forall i :: 0 <= i < |es[1..]| ==> es[1..][i].0 != k) ==> Lookup(r, k) == Lookup(d1, k)
    ensures forall k :: (forall i :: 0 <= i < |es| ==> es[i].0 != k) ==> Lookup(r, k) == Lookup(d, k)
  {
    var t := es[1..];
    forall k | forall i :: 0 <= i < |es| ==> es[i].0 != k
      ensures Lookup(r, k) == Lookup(d, k)
    {
      assert es[0].0 != k;
      assert forall i :: 0 <= i < |t| ==> t[i].0 != k by {
        forall i | 0 <= i < |t| ensures t[i].0 != k { assert t[i] == es[i + 1]; }
      }
    }
  }

  /** Every entry's key ends up stored and unpacked: its last entry is. */
  lemma SetAllStores(es: seq<(string, RType)>, r: Properties)
    requires forall i :: 0 <= i < |es| ==> !es[i].1.NoneType?
    requires forall i :: 0 <= i < |es| && LastWith(es, i) ==> Lookup(r, es[i].0) == Some(MarkUnpacked(es[i].1))
    ensures forall i :: 0 <= i < |es| ==> Lookup(r, es[i].0).Some? && IsUnpacked(Lookup(r, es[i].0).value)
  {
    forall i | 0 <= i < |es|
      ensures Lookup(r, es[i].0).Some? && IsUnpacked(Lookup(r, es[i].0).value)
    {
      var j := LastIndex(es, i);
    }
  }

  /** One step of `SetAll`: no key appears that was neither present nor stored. */
  lemma SetAllOnly(d: Properties, es: seq<(string, RType)>, d1: Properties, r: Properties)
    requires DistinctKeys(d) && |es| > 0 && !es[0].1.NoneType?
    requires d1 == DictSet(d, es[0].0, MarkUnpacked(es[0].1))
    requires forall k :: Lookup(r, k).Some? ==> Lookup(d1, k).Some? || exists i :: 0 <= i < |es[1..]| && es[1..][i].0 == k
    ensures forall k :: Lookup(r, k).Some? ==> Lookup(d, k).Some? || exists i :: 0 <= i < |es| && es[i].0 == k
  {
    var t := es[1..];
    forall k | Lookup(r, k).Some?
      ensures Lookup(d, k).Some? || exists i :: 0 <= i < |es| && es[i].0 == k
    {
      if k == es[0].0 {
        assert es[0].0 == k;
      } else if exists j :: 0 <= j < |t| && t[j].0 == k {
        var j :| 0 <= j < |t| && t[j].0 == k;
        assert es[j + 1].0 == k;
      }
    }
  }

  /** `_add_packed_instances(id_, Type, properties)`: adds every entry of
      `_unpack(id_, Type)`, marked unpacked, to the properties. Fails where
      the source's assertions fail: on a non-array, or on an element type
      without an `unpacked` attribute. */
  function AddPackedInstances(id: string, t: RType, props: Properties): (r: Result<Properties, TypeError>)
    requires Shaped(t) && DistinctKeys(props)
    ensures !t.Array? ==> r == Failure(NotAnArray)
    ensures t.Array? ==> (r.Success? <==> forall e :: e in Unpack(id, t) ==> !e.1.NoneType?)
    ensures r.Success? ==> DistinctKeys(r.value)
    ensures r.Success? ==> forall e :: e in Unpack(id, t) ==>
      !e.1.NoneType? && Lookup(r.value, e.0) == Some(MarkUnpacked(e.1))
    ensures r.Success? ==> Lookup(r.value, id) == Lookup(props, id)
    ensures r.Success? ==> forall k :: (forall e :: e in Unpack(id, t) ==> e.0 != k) ==>
      Lookup(r.value, k) == Lookup(props, k)
    ensures r.Success? ==> forall k :: Lookup(r.value, k).Some? ==>
      Lookup(props, k).Some? || exists e :: e in Unpack(id, t) && e.0 == k
  {
    if !t.Array? then Failure(NotAnArray)
    else if exists e :: e in Unpack(id, t) && e.1.NoneType? then Failure(NotUnpackable)
    else
      AddPackedFacts(id, t, props);
      Success(SetAll(props, Unpack(id, t)))
  }

  /** What the loop of `_add_packed_instances` leaves in the dict when every
      element type has an `unpacked` attribute. */
  lemma AddPackedFacts(id: string, t: RType, props: Properties)
    requires t.Array? && Shaped(t) && DistinctKeys(props)
    requires forall e :: e in Unpack(id, t) ==> !e.1.NoneType?
    ensures forall i :: 0 <= i < |Unpack(id, t)| ==> !Unpack(id, t)[i].1.NoneType?
    ensures var r := SetAll(props, Unpack(id, t));
      && (forall e :: e in Unpack(id, t) ==> !e.1.NoneType? && Lookup(r, e.0) == Some(MarkUnpacked(e.1)))
      && Lookup(r, id) == Lookup(props, id)
      && (forall k :: (forall e :: e in Unpack(id, t) ==> e.0 != k) ==> Lookup(r, k) == Lookup(props, k))
      && (forall k :: Lookup(r, k).Some? ==> Lookup(props, k).Some? || exists e :: e in Unpack(id, t) && e.0 == k)
  {
    var es := Unpack(id, t);
    NoNoneIndexed(es);
    forall e | e in es ensures e.0 != id {
      UnpackNamesExtendId(id, t, e);
    }
    forall e1, e2 | e1 in es && e2 in es && e1.0 == e2.0 ensures e1.1 == e2.1 {
      UnpackConsistent(id, t, e1, e2);
    }
    SetAllByName(props, es);
    SetAllKeepsOthers(props, es);
    SetAllNamesOnly(props, es);
  }

  lemma NoNoneIndexed(es: seq<(string, RType)>)
    requires forall e :: e in es ==> !e.1.NoneType?
    ensures forall i :: 0 <= i < |es| ==> !es[i].1.NoneType?
  {
    forall i | 0 <= i < |es| ensures !es[i].1.NoneType? {
      assert es[i] in es;
    }
  }

  /** When entries sharing a name share a type, every entry is stored, marked unpacked. */
  lemma SetAllByName(props: Properties, es: seq<(string, RType)>)
    requires DistinctKeys(props)
    requires forall i :: 0 <= i < |es| ==> !es[i].1.NoneType?
    requires forall e1, e2 :: e1 in es && e2 in es && e1.0 == e2.0 ==> e1.1 == e2.1
    ensures forall e :: e in es ==> !e.1.NoneType? && Lookup(SetAll(props, es), e.0) == Some(MarkUnpacked(e.1))
  {
    var r := SetAll(props, es);
    forall e | e in es
      ensures !e.1.NoneType? && Lookup(r, e.0) == Some(MarkUnpacked(e.1))
    {
      var i :| 0 <= i < |es| && es[i] == e;
      var j := LastIndex(es, i);
      assert es[j] in es;
    }
  }

  /** Names that no entry carries keep their earlier value. */
  lemma SetAllKeepsOthers(props: Properties, es: seq<(string, RType)>)
    requires DistinctKeys(props)
    requires forall i :: 0 <= i < |es| ==> !es[i].1.NoneType?
    ensures forall k :: (forall e :: e in es ==> e.0 != k) ==> Lookup(SetAll(props, es), k) == Lookup(props, k)
  {
    forall k | forall e :: e in es ==> e.0 != k
      ensures Lookup(SetAll(props, es), k) == Lookup(props, k)
    {
      forall i | 0 <= i < |es| ensures es[i].0 != k {
        assert es[i] in es;
      }
    }
  }

  /** Every name in the result was there before or is carried by an entry. */
  lemma SetAllNamesOnly(props: Properties, es: seq<(string, RType)>)
    requires DistinctKeys(props)
    requires forall i :: 0 <= i < |es| ==> !es[i].1.NoneType?
    ensures forall k :: Lookup(SetAll(props, es), k).Some? ==>
      Lookup(props, k).Some? || exists e :: e in es && e.0 == k
  {
    forall k | Lookup(SetAll(props, es), k).Some? && Lookup(props, k).None?
      ensures exists e :: e in es && e.0 == k
    {
      var i :| 0 <= i < |es| && es[i].0 == k;
      assert es[i] in es;
    }
  }
}
