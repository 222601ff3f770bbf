/** The Python values that the RTLIR type generators inspect: nested lists,
    tuples, integers, `Bits` and DSL objects; `_freeze`, the convertibility
    tests and the binding of `construct` arguments (`_gen_parameters`). */
module RTLIRValues {
  import opened Wrappers

  /** The kinds of DSL and other objects the tests tell apart. */
  datatype ObjKind = InPortObj | OutPortObj | WireObj | InterfaceObj | ComponentObj | BitStructObj | OtherObj

  datatype PyObj =
    | PyList(items: seq<PyObj>)
    | PyTuple(items: seq<PyObj>)
    | PyInt(i: int)
    | PyBool(b: bool)
    | PyBits(nbits: nat, value: int)
    | PyObject(kind: ObjKind)

  //-----------------------------------------------------------------------
  // _freeze
  //-----------------------------------------------------------------------

  /** `_freeze`: every list, at any depth below a list, becomes a tuple;
      anything that is not a list is returned as it is. */
  function Freeze(o: PyObj): (r: PyObj)
    ensures !r.PyList?
    ensures !o.PyList? ==> r == o
    ensures o.PyList? ==> r.PyTuple? && |r.items| == |o.items|
    ensures o.PyList? ==> forall i :: 0 <= i < |o.items| ==> r.items[i] == Freeze(o.items[i])
  {
    match o
    case PyList(s) => PyTuple(seq(|s|, i requires 0 <= i < |s| => Freeze(s[i])))
    case _ => o
  }

  /** No list occurs anywhere in `o` (so `o` is hashable as a cache key). */
  predicate NoLists(o: PyObj) {
    match o
    case PyList(_) => false
    case PyTuple(s) => forall i :: 0 <= i < |s| ==> NoLists(s[i])
    case _ => true
  }

  /** No tuple occurs anywhere in `o`. */
  predicate NoTuples(o: PyObj) {
    match o
    case PyTuple(_) => false
    case PyList(s) => forall i :: 0 <= i < |s| ==> NoTuples(s[i])
    case _ => true
  }

  /** The inverse of freezing: every tuple becomes a list again. */
  function Thaw(o: PyObj): PyObj {
    match o
    case PyTuple(s) => PyList(seq(|s|, i requires 0 <= i < |s| => Thaw(s[i])))
    case _ => o
  }

  /** On a value built from lists alone, freezing leaves no list behind, keeps
      the shape (thawing restores the value), and is idempotent. */
  lemma {:induction false} FreezeRoundTrip(o: PyObj)
    requires NoTuples(o)
    ensures NoLists(Freeze(o))
    ensures Thaw(Freeze(o)) == o
    ensures Freeze(Freeze(o)) == Freeze(o)
  {
    match o
    case PyList(s) =>
      forall i | 0 <= i < |s| {
        FreezeRoundTrip(s[i]);
      }
      assert Thaw(Freeze(o)).items == s;
    case _ =>
  }

  //-----------------------------------------------------------------------
  // is_rtlir_convertible and _is_rtlir_ifc_convertible
  //-----------------------------------------------------------------------

  /** `is_rtlir_convertible`: a list is judged by its first element, at every
      depth, and an empty list is convertible (it is dropped later). Ports,
      wires, `Bits`, interfaces, components, bit-struct instances and
      integers (a `bool` is an `int` in Python) are convertible. */
  predicate IsRtlirConvertible(o: PyObj) {
    match o
    case PyList(s) => |s| == 0 || IsRtlirConvertible(s[0])
    case PyTuple(_) => false
    case PyInt(_) => true
    case PyBool(_) => true
    case PyBits(_, _) => true
    case PyObject(k) => k != OtherObj
  }

  /** `_is_rtlir_ifc_convertible`: the same descent, but only ports and interfaces qualify. */
  predicate IsRtlirIfcConvertible(o: PyObj) {
    match o
    case PyList(s) => |s| == 0 || IsRtlirIfcConvertible(s[0])
    case PyObject(k) => k in {InPortObj, OutPortObj, InterfaceObj}
    case _ => false
  }

  /** What the `while isinstance(obj, list)` loop stops at: the first
      non-list reached by taking element 0, or an empty list. */
  function LeftmostLeaf(o: PyObj): (r: PyObj)
    ensures r.PyList? ==> |r.items| == 0
  {
    if o.PyList? && |o.items| > 0 then LeftmostLeaf(o.items[0]) else o
  }

  /** Convertibility depends on the leftmost leaf alone. */
  lemma {:induction false} ConvertibleByLeftmostLeaf(o: PyObj)
    ensures IsRtlirConvertible(o) == IsRtlirConvertible(LeftmostLeaf(o))
    ensures IsRtlirIfcConvertible(o) == IsRtlirIfcConvertible(LeftmostLeaf(o))
  {
    if o.PyList? && |o.items| > 0 {
      ConvertibleByLeftmostLeaf(o.items[0]);
    }
  }

  /** Whatever may appear in an interface may appear in a component. */
  lemma {:induction false} IfcConvertibleIsConvertible(o: PyObj)
    ensures IsRtlirIfcConvertible(o) ==> IsRtlirConvertible(o)
  {
    if o.PyList? && |o.items| > 0 {
      IfcConvertibleIsConvertible(o.items[0]);
    }
  }

  //-----------------------------------------------------------------------
  // _gen_parameters
  //-----------------------------------------------------------------------

  /** The result of reflecting on `construct`: its parameter names (the first
      is `self`), its default values (aligned with the last parameters), and
      whether it has `*args`, `**kwargs` or keyword-only parameters. */
  datatype ArgSpec = ArgSpec(args: seq<string>, defaults: seq<PyObj>, varargs: bool, varkw: bool, kwonly: bool)

  /** The arguments the component was constructed with (`_dsl.args`, `_dsl.kwargs`). */
  datatype Supplied = Supplied(args: seq<PyObj>, kwargs: map<string, PyObj>)

  datatype ParamError = KeywordArgsNotAllowed | VarArgsNotAllowed | ParseFailed | UnexpectedDefault | DefaultIndexError

  /** The parameter names after `self`. */
  function ArgNames(spec: ArgSpec): seq<string> {
    if |spec.args| == 0 then [] else spec.args[1..]
  }

  /** The supplied values and defaults together can cover every parameter. */
  predicate CountOk(spec: ArgSpec, sup: Supplied) {
    var n := |ArgNames(spec)|;
    var supplied := |sup.args| + |sup.kwargs|;
    n == supplied || n <= supplied + |spec.defaults|
  }

  /** Parameter `i` has a value: positional, by keyword, or (when defaults are
      in use) from the defaults aligned with the last parameters. */
  predicate Covered(spec: ArgSpec, sup: Supplied, i: nat)
    requires i < |ArgNames(spec)|
  {
    var n := |ArgNames(spec)|;
    || i < |sup.args|
    || ArgNames(spec)[i] in sup.kwargs
    || (n != |sup.args| + |sup.kwargs| && i + |spec.defaults| >= n)
  }

  /** The value bound to a covered parameter. */
  function ValueOf(spec: ArgSpec, sup: Supplied, i: nat): PyObj
    requires i < |ArgNames(spec)| && Covered(spec, sup, i)
  {
    var n := |ArgNames(spec)|;
    if i < |sup.args| then sup.args[i]
    else if ArgNames(spec)[i] in sup.kwargs then sup.kwargs[ArgNames(spec)[i]]
    else spec.defaults[|spec.defaults| + i - n]
  }

  /** The loop of `_gen_parameters` from parameter `i` on. */
  function BindFrom(spec: ArgSpec, sup: Supplied, i: nat): (r: Result<seq<(string, PyObj)>, ParamError>)
    requires i <= |ArgNames(spec)|
    ensures r.Success? <==> forall j :: i <= j < |ArgNames(spec)| ==> Covered(spec, sup, j)
    ensures r.Success? ==> |r.value| == |ArgNames(spec)| - i
    ensures r.Success? ==> forall k :: 0 <= k < |r.value| ==>
      r.value[k] == (ArgNames(spec)[i + k], ValueOf(spec, sup, i + k))
    decreases |ArgNames(spec)| - i
  {
    var names := ArgNames(spec);
    var n := |names|;
    if i == n then Success([])
    else
      var v: Result<PyObj, ParamError> :=
        if i < |sup.args| then Success(sup.args[i])
        else if names[i] in sup.kwargs then Success(sup.kwargs[names[i]])
        else if n == |sup.args| + |sup.kwargs| then Failure(UnexpectedDefault)
        else if i + |spec.defaults| < n then Failure(DefaultIndexError)
        else Success(spec.defaults[|spec.defaults| + i - n]);
      assert v.Failure? <==> !Covered(spec, sup, i);
      match v
      case Failure(e) => Failure(e)
      case Success(x) =>
        match BindFrom(spec, sup, i + 1)
        case Failure(e) => Failure(e)
        case Success(rest) => Success([(names[i], x)] + rest)
  }

  /** `_gen_parameters` over an explicit argument spec: one `(name, value)`
      pair per parameter after `self`, in declaration order. */
  function GenParameters(spec: ArgSpec, sup: Supplied): (r: Result<seq<(string, PyObj)>, ParamError>)
    ensures r.Success? <==>
      && !spec.varkw && !spec.kwonly && !spec.varargs && CountOk(spec, sup)
      && forall j :: 0 <= j < |ArgNames(spec)| ==> Covered(spec, sup, j)
    ensures r.Success? ==> |r.value| == |ArgNames(spec)|
    ensures r.Success? ==> forall k :: 0 <= k < |r.value| ==>
      r.value[k] == (ArgNames(spec)[k], ValueOf(spec, sup, k))
  {
    if spec.varkw || spec.kwonly then Failure(KeywordArgsNotAllowed)
    else if spec.varargs then Failure(VarArgsNotAllowed)
    else if !CountOk(spec, sup) then Failure(ParseFailed)
    else BindFrom(spec, sup, 0)
  }

  /** Supplying fewer values than parameters, even counting defaults, fails. */
  lemma TooFewValuesFail(spec: ArgSpec, sup: Supplied)
    requires |sup.args| + |sup.kwargs| + |spec.defaults| < |ArgNames(spec)|
    ensures GenParameters(spec, sup).Failure?
  {
  }

  /** With every parameter supplied positionally, the values are the positional arguments. */
  lemma AllPositional(spec: ArgSpec, sup: Supplied)
    requires !spec.varkw && !spec.kwonly && !spec.varargs
    requires |sup.args| == |ArgNames(spec)| && |sup.kwargs| == 0
    ensures var r := GenParameters(spec, sup);
      r.Success? && forall k :: 0 <= k < |r.value| ==> r.value[k].1 == sup.args[k]
  {
  }

  /** `construct( s, num_entries=1 )` called with no arguments binds the default. */
  lemma DefaultOnlyExample()
    ensures GenParameters(ArgSpec(["s", "num_entries"], [PyInt(1)], false, false, false), Supplied([], map[]))
      == Success([("num_entries", PyInt(1))])
  {
    var spec := ArgSpec(["s", "num_entries"], [PyInt(1)], false, false, false);
    var sup := Supplied([], map[]);
    assert ArgNames(spec) == ["num_entries"];
    assert |sup.kwargs| == 0;
    var r := GenParameters(spec, sup);
    assert Covered(spec, sup, 0);
    assert r.Success? && |r.value| == 1;
    assert r.value[0] == ("num_entries", PyInt(1));
    assert r.value == [("num_entries", PyInt(1))];
  }
}
