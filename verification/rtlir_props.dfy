/** The sorted, kind-filtered property getters of interface views and
    components, the interface-view sanity check, and the `__eq__` rules of
    the RTLIR instance types. */
module RTLIRProperties {
  import opened Wrappers
  import opened RTLIRType
  import RTLIRValues

  //-----------------------------------------------------------------------
  // Python's string order and sorting by name
  //-----------------------------------------------------------------------

  /** `a <= b` on Python strings: lexicographic by code point. */
  predicate StrLe(a: string, b: string) {
    if |a| == 0 then true
    else if |b| == 0 then false
    else if a[0] != b[0] then a[0] < b[0]
    else StrLe(a[1..], b[1..])
  }

  lemma {:induction false} StrLeTotal(a: string, b: string)
    ensures StrLe(a, b) || StrLe(b, a)
  {
    if |a| > 0 && |b| > 0 && a[0] == b[0] {
      StrLeTotal(a[1..], b[1..]);
    }
  }

  /** Sorted by name, each entry's name at most the next one's. */
  predicate SortedByName(s: Properties) {
    forall i :: 0 <= i < |s| - 1 ==> StrLe(s[i].0, s[i + 1].0)
  }

  function Insert(x: (string, RType), s: Properties): (r: Properties)
    requires SortedByName(s)
    ensures SortedByName(r)
    ensures multiset(r) == multiset(s) + multiset{x}
    ensures |r| > 0 && (r[0] == x || (|s| > 0 && r[0] == s[0]))
  {
    if |s| == 0 then [x]
    else if StrLe(x.0, s[0].0) then [x] + s
    else
      StrLeTotal(x.0, s[0].0);
      var rest := Insert(x, s[1..]);
      assert s == [s[0]] + s[1..];
      [s[0]] + rest
  }

  /** `sorted(items, key = lambda kv: kv[0])`. */
  function SortByName(s: Properties): (r: Properties)
    ensures SortedByName(r)
    ensures multiset(r) == multiset(s)
  {
    if |s| == 0 then []
    else
      assert s == [s[0]] + s[1..];
      Insert(s[0], SortByName(s[1..]))
  }

  //-----------------------------------------------------------------------
  // Kind-filtered getters
  //-----------------------------------------------------------------------

  /** Which getter is meant. The `...Packed` getters keep entries that are
      not unpacked and are of the kind or an array of it. */
  datatype Selector =
    | Ports | PortsPacked | Wires | WiresPacked | Consts | ConstsPacked
    | IfcViews | IfcViewsPacked | Subcomps | SubcompsPacked | PropertiesPacked

  /** `(isinstance(t, K) and not t._is_unpacked()) or
      (isinstance(t, Array) and isinstance(t.get_sub_type(), K) and not t._is_unpacked())`. */
  predicate PackedOf(t: RType, k: Kind) {
    !IsUnpacked(t) && (KindOf(t) == k || (t.Array? && KindOf(t.subType) == k))
  }

  predicate Selects(sel: Selector, t: RType) {
    match sel
    case Ports => t.Port?
    case PortsPacked => PackedOf(t, KPort)
    case Wires => t.Wire?
    case WiresPacked => PackedOf(t, KWire)
    case Consts => t.Const?
    case ConstsPacked => PackedOf(t, KConst)
    case IfcViews => t.InterfaceView?
    case IfcViewsPacked => PackedOf(t, KInterfaceView)
    case Subcomps => t.Component?
    case SubcompsPacked => PackedOf(t, KComponent)
    case PropertiesPacked => !IsUnpacked(t)
  }

  function Filter(props: Properties, sel: Selector): (r: Properties)
    ensures forall p :: p in r <==> p in props && Selects(sel, p.1)
    ensures multiset(r) <= multiset(props)
  {
    if |props| == 0 then []
    else
      assert props == [props[0]] + props[1..];
      (if Selects(sel, props[0].1) then [props[0]] else []) + Filter(props[1..], sel)
  }

  /** The getters `get_ports`, `get_ports_packed`, `get_wires`, ...,
      `get_subcomps_packed` of `Component`, and `get_all_ports`,
      `get_all_ports_packed`, `get_all_properties_packed` of `InterfaceView`:
      exactly the properties of the requested kind, sorted by name. */
  function Get(props: Properties, sel: Selector): (r: Properties)
    ensures SortedByName(r)
    ensures forall p :: p in r <==> p in props && Selects(sel, p.1)
    ensures multiset(r) <= multiset(props)
    ensures multiset(r) == multiset(Filter(props, sel))
  {
    var f := Filter(props, sel);
    var r := SortByName(f);
    assert forall p :: p in r <==> p in multiset(r);
    r
  }

  /** A sorted list of distinct names is determined by its contents: the
      getter's result does not depend on the insertion order of the dict. */
  lemma {:induction false} GetIgnoresInsertionOrder(p: Properties, q: Properties, sel: Selector)
    requires multiset(p) == multiset(q)
    ensures multiset(Get(p, sel)) == multiset(Get(q, sel))
  {
    FilterMultiset(p, q, sel);
  }

  lemma {:induction false} FilterMultiset(p: Properties, q: Properties, sel: Selector)
    requires multiset(p) == multiset(q)
    ensures multiset(Filter(p, sel)) == multiset(Filter(q, sel))
  {
    forall x ensures multiset(Filter(p, sel))[x] == multiset(Filter(q, sel))[x] {
      FilterCount(p, sel, x);
      FilterCount(q, sel, x);
    }
  }

  lemma {:induction false} FilterCount(p: Properties, sel: Selector, x: (string, RType))
    ensures multiset(Filter(p, sel))[x] == if Selects(sel, x.1) then multiset(p)[x] else 0
  {
    if |p| > 0 {
      FilterCount(p[1..], sel, x);
      var h := if Selects(sel, p[0].1) then [p[0]] else [];
      assert p == [p[0]] + p[1..];
      assert Filter(p, sel) == h + Filter(p[1..], sel);
      assert multiset(Filter(p, sel)) == multiset(h) + multiset(Filter(p[1..], sel));
      assert multiset(p) == multiset([p[0]]) + multiset(p[1..]);
    }
  }

  //-----------------------------------------------------------------------
  // InterfaceView
  //-----------------------------------------------------------------------

  datatype ViewError = InvalidAttribute(name: string) | MissingDirection(name: string)

  /** The sanity check of `InterfaceView.__init__`: every attribute is a port
      or an interface view, or an array of them. */
  function MakeInterfaceView(name: string, props: Properties, unpacked: bool): (r: Result<RType, ViewError>)
    ensures r.Success? <==> forall i :: 0 <= i < |props| ==> IsOfType(props[i].1, {KPort, KInterfaceView})
    ensures r.Success? ==> r.value == InterfaceView(name, props, unpacked)
  {
    match FirstInvalidAttribute(props)
    case None => Success(InterfaceView(name, props, unpacked))
    case Some(n) => Failure(InvalidAttribute(n))
  }

  /** The first attribute that is neither a port nor an interface view, nor an array of them. */
  function FirstInvalidAttribute(props: Properties): (r: Option<string>)
    ensures r.None? <==> forall i :: 0 <= i < |props| ==> IsOfType(props[i].1, {KPort, KInterfaceView})
  {
    if |props| == 0 then None
    else if !IsOfType(props[0].1, {KPort, KInterfaceView}) then Some(props[0].0)
    else
      var r := FirstInvalidAttribute(props[1..]);
      assert forall i :: 1 <= i < |props| ==> props[i] == props[1..][i - 1];
      r
  }

  /** The first property that is not a port. */
  function FirstNonPort(props: Properties): (r: Option<string>)
    ensures r.None? <==> forall i :: 0 <= i < |props| ==> props[i].1.Port?
  {
    if |props| == 0 then None
    else if !props[0].1.Port? then Some(props[0].0)
    else
      var r := FirstNonPort(props[1..]);
      assert forall i :: 1 <= i < |props| ==> props[i] == props[1..][i - 1];
      r
  }

  /** `get_input_ports` / `get_output_ports` as written: the filter reads
      `.direction` of every property, which only a port has, so any other
      property raises AttributeError. */
  function DirectionPortsAsWritten(props: Properties, dir: string): (r: Result<Properties, ViewError>)
    ensures r.Success? <==> forall i :: 0 <= i < |props| ==> props[i].1.Port?
    ensures r.Success? ==> SortedByName(r.value)
    ensures r.Success? ==> forall p :: p in r.value <==> p in props && p.1.direction == dir
  {
    if FirstNonPort(props).Some? then Failure(MissingDirection(FirstNonPort(props).value))
    else
      var r := SortByName(DirectionFilter(props, dir));
      assert forall p :: p in r <==> p in multiset(r);
      Success(r)
  }

  function DirectionFilter(props: Properties, dir: string): (r: Properties)
    ensures forall p :: p in r <==> p in props && p.1.Port? && p.1.direction == dir
  {
    if |props| == 0 then []
    else
      assert props == [props[0]] + props[1..];
      (if props[0].1.Port? && props[0].1.direction == dir then [props[0]] else []) + DirectionFilter(props[1..], dir)
  }

  /** An interface with an array of ports passes the sanity check of
      `InterfaceView.__init__`, yet `get_input_ports` raises on it. */
  lemma PortArrayBreaksInputPorts()
    ensures MakeInterfaceView("Ifc", PortArrayIfc(), false).Success?
    ensures DirectionPortsAsWritten(PortArrayIfc(), "input").Failure?
  {
    assert !PortArrayIfc()[0].1.Port?;
  }

  /** The properties of an interface with `s.out = [ InPort( Bits32 ) for _ in range(2) ]`,
      after `_add_packed_instances`. */
  function PortArrayIfc(): Properties {
    [ ("out", Array([2], Port("input", Vector(32), false), None, false)),
      ("out[0]", Port("input", Vector(32), true)),
      ("out[1]", Port("input", Vector(32), true)) ]
  }

  /** `get_input_ports` / `get_output_ports` as evidently intended: the ports
      of the given direction, sorted by name; never fails. */
  function DirectionPorts(props: Properties, dir: string): (r: Properties)
    ensures SortedByName(r)
    ensures forall p :: p in r <==> p in props && p.1.Port? && p.1.direction == dir
  {
    var r := SortByName(DirectionFilter(props, dir));
    assert forall p :: p in r <==> p in multiset(r);
    r
  }

  /** Where the written getter does not raise, it agrees with the intended one. */
  lemma DirectionPortsAgree(props: Properties, dir: string)
    requires forall i :: 0 <= i < |props| ==> props[i].1.Port?
    ensures DirectionPortsAsWritten(props, dir) == Success(DirectionPorts(props, dir))
  {
  }

  //-----------------------------------------------------------------------
  // __eq__
  //-----------------------------------------------------------------------

  /** `__eq__` between two ports. */
  predicate PortEq(a: RType, b: RType) {
    a.Port? && b.Port? && a.dtype == b.dtype && a.direction == b.direction
  }

  /** `__eq__` of an entry `get_ports_packed` returns: a port, or an array of ports. */
  predicate PortLikeEq(a: RType, b: RType) {
    if a.Port? then PortEq(a, b)
    else a.Array? && a.subType.Port? && b.Array? && a.dimSizes == b.dimSizes && PortEq(a.subType, b.subType)
  }

  /** `_has_same_interface`: the same number of packed ports, pairwise equal as `(name, type)` tuples. */
  predicate SameInterface(u: Properties, v: Properties) {
    |u| == |v| && forall i :: 0 <= i < |u| ==> u[i].0 == v[i].0 && PortLikeEq(u[i].1, v[i].1)
  }

  /** The `__eq__` of every RTLIR instance type. An array compares dimensions
      and sub-type; a port dtype and direction; a wire, net wire or constant
      its dtype; an interface view its name; a component its sorted packed
      ports. `obj`, `unpacked` and parameters never take part. */
  predicate Eq(a: RType, b: RType)
    decreases a
  {
    match a
    case NoneType => b.NoneType?
    case Array(dims, sub, _, _) => b.Array? && dims == b.dimSizes && Eq(sub, b.subType)
    case Port(dir, dt, _) => b.Port? && dt == b.dtype && dir == b.direction
    case Wire(dt, _) => b.Wire? && dt == b.dtype
    case NetWire(dt, _) => b.NetWire? && dt == b.dtype
    case Const(dt, _, _) => b.Const? && dt == b.dtype
    case InterfaceView(n, _, _) => b.InterfaceView? && n == b.name
    case Component(_, _, ps, _) =>
      b.Component? && SameInterface(Get(ps, PortsPacked), Get(b.properties, PortsPacked))
  }

  /** On the entries `get_ports_packed` returns, the packed-port comparison is `__eq__`. */
  lemma PortLikeEqIsEq(a: RType, b: RType)
    requires PackedOf(a, KPort)
    ensures PortLikeEq(a, b) == Eq(a, b)
  {
  }

  lemma PortLikeEqEquivalence(a: RType, b: RType, c: RType)
    requires PackedOf(a, KPort)
    ensures PortLikeEq(a, a)
    ensures PortLikeEq(a, b) ==> PortLikeEq(b, a)
    ensures PortLikeEq(a, b) && PortLikeEq(b, c) ==> PortLikeEq(a, c)
  {
  }

  lemma PackedPortsArePackedPorts(ps: Properties)
    ensures forall i :: 0 <= i < |Get(ps, PortsPacked)| ==> PackedOf(Get(ps, PortsPacked)[i].1, KPort)
  {
    var g := Get(ps, PortsPacked);
    forall i | 0 <= i < |g| ensures PackedOf(g[i].1, KPort) {
      assert g[i] in g;
    }
  }

  lemma SameInterfaceEquivalence(u: Properties, v: Properties, w: Properties)
    requires forall i :: 0 <= i < |u| ==> PackedOf(u[i].1, KPort)
    requires forall i :: 0 <= i < |v| ==> PackedOf(v[i].1, KPort)
    ensures SameInterface(u, u)
    ensures SameInterface(u, v) ==> SameInterface(v, u)
    ensures SameInterface(u, v) && SameInterface(v, w) ==> SameInterface(u, w)
  {
    forall i | 0 <= i < |u| ensures PortLikeEq(u[i].1, u[i].1) {
      PortLikeEqEquivalence(u[i].1, u[i].1, u[i].1);
    }
    if SameInterface(u, v) {
      forall i | 0 <= i < |u| ensures PortLikeEq(v[i].1, u[i].1) {
        PortLikeEqEquivalence(u[i].1, v[i].1, v[i].1);
      }
      if SameInterface(v, w) {
        forall i | 0 <= i < |u| ensures PortLikeEq(u[i].1, w[i].1) {
          PortLikeEqEquivalence(u[i].1, v[i].1, w[i].1);
        }
      }
    }
  }

  lemma ComponentEqEquivalence(a: RType, b: RType, c: RType)
    requires a.Component? && b.Component? && c.Component?
    ensures Eq(a, a)
    ensures Eq(a, b) ==> Eq(b, a)
    ensures Eq(a, b) && Eq(b, c) ==> Eq(a, c)
  {
    PackedPortsArePackedPorts(a.properties);
    PackedPortsArePackedPorts(b.properties);
    SameInterfaceEquivalence(Get(a.properties, PortsPacked), Get(b.properties, PortsPacked),
                             Get(c.properties, PortsPacked));
  }

  /** `__eq__` is an equivalence relation on RTLIR types. */
  lemma {:induction false} EqIsEquivalence(a: RType, b: RType, c: RType)
    ensures Eq(a, a)
    ensures Eq(a, b) ==> Eq(b, a)
    ensures Eq(a, b) && Eq(b, c) ==> Eq(a, c)
    decreases a
  {
    match a
    case Array(_, sub, _, _) =>
      if b.Array? && c.Array? {
        EqIsEquivalence(sub, b.subType, c.subType);
      } else if b.Array? {
        EqIsEquivalence(sub, b.subType, b.subType);
      } else {
        EqIsEquivalence(sub, sub, sub);
      }
    case Component(_, _, _, _) =>
      if b.Component? && c.Component? {
        ComponentEqEquivalence(a, b, c);
      } else if b.Component? {
        ComponentEqEquivalence(a, b, b);
      } else {
        ComponentEqEquivalence(a, a, a);
      }
    case _ =>
  }

  /** `obj`, `unpacked` and a component's name and parameters never take part in `__eq__`. */
  lemma EqIgnoresUnpacked(a: RType)
    requires !a.NoneType?
    ensures Eq(a, MarkUnpacked(a))
  {
    EqIsEquivalence(a, a, a);
    if a.Array? {
      EqIsEquivalence(a.subType, a.subType, a.subType);
    }
  }

  /** Equal types are of the same kind, and an array's `obj` never takes part. */
  lemma EqSameKind(a: RType, b: RType, o: Option<RTLIRValues.PyObj>)
    ensures Eq(a, b) ==> KindOf(a) == KindOf(b)
    ensures a.Array? ==> Eq(a, Array(a.dimSizes, a.subType, o, a.unpacked))
  {
    if a.Array? {
      EqIsEquivalence(a.subType, a.subType, a.subType);
    }
  }

  /** Two components are equal exactly when their sorted packed-port lists
      have the same length and are pairwise equal in name and type. */
  lemma ComponentEqIffSamePorts(a: RType, b: RType)
    requires a.Component? && b.Component?
    ensures var u := Get(a.properties, PortsPacked);
      var v := Get(b.properties, PortsPacked);
      Eq(a, b) <==> |u| == |v| && forall i :: 0 <= i < |u| ==> u[i].0 == v[i].0 && Eq(u[i].1, v[i].1)
  {
    var u := Get(a.properties, PortsPacked);
    PackedPortsArePackedPorts(a.properties);
    forall i | 0 <= i < |u| ensures forall y :: PortLikeEq(u[i].1, y) == Eq(u[i].1, y) {
      forall y { PortLikeEqIsEq(u[i].1, y); }
    }
    assert Eq(a, b) == SameInterface(u, Get(b.properties, PortsPacked));
  }
}
