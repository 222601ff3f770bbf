/** The string builders of the SystemVerilog structural translator (level 1):
    data type and array declarations, port, wire and constant declarations,
    the nested `'{ … }` literal of a constant array, connections, signal
    selections, identifier mangling and sized number literals. Each
    rendered form has a parser here that reads it back. */
module SVStructural {
  import opened Wrappers
  import opened Strings
  import opened RTLIRValues
  import opened RTLIRType

  datatype SVError =
    | ReservedKeyword(name: string)   // SVerilogReservedKeywordError
    | NotVectorConstant               // the vector assertion of `rtlir_tr_const_decl`
    | ScalarIsList                    // `assert not isinstance( array, list )`
    | NotAnInteger                    // `assert False, '… is not an integer!'`
    | NotAList                        // `assert isinstance( array, list )`
    | IndexOutOfRange                 // `array[idx]` past the end of the list

  //-----------------------------------------------------------------------
  // Sized number literals
  //-----------------------------------------------------------------------

  /** `_literal_number`: `<nbits>'d<value>`. */
  function Literal(nbits: int, value: int): string {
    IntToString(nbits) + "'d" + IntToString(value)
  }

  /** Reads `<int>'d<int>` back. */
  function ParseLiteral(s: string): Option<(int, int)> {
    match SplitAt(s, '\'')
      case None => None
      case Some(p) =>
        if |p.1| == 0 || p.1[0] != 'd' then None
        else match (ParseInt(p.0), ParseInt(p.1[1..]))
          case (Some(n), Some(v)) => Some((n, v))
          case _ => None
  }

  lemma LiteralRoundTrip(nbits: int, value: int)
    ensures ParseLiteral(Literal(nbits, value)) == Some((nbits, value))
  {
    IntToStringAvoids(nbits, '\'');
    var rest := "d" + IntToString(value);
    assert Literal(nbits, value) == IntToString(nbits) + ['\''] + rest;
    SplitAtConcat(IntToString(nbits), '\'', rest);
    assert rest[1..] == IntToString(value);
    IntToStringRoundTrip(nbits);
    IntToStringRoundTrip(value);
  }

  /** Distinct (width, value) pairs give distinct literals. */
  lemma LiteralInjective(n1: int, v1: int, n2: int, v2: int)
    requires Literal(n1, v1) == Literal(n2, v2)
    ensures n1 == n2 && v1 == v2
  {
    LiteralRoundTrip(n1, v1);
    LiteralRoundTrip(n2, v2);
  }

  //-----------------------------------------------------------------------
  // Data types and unpacked arrays
  //-----------------------------------------------------------------------

  /** A declaration with a single `{id_}` hole. */
  datatype Template = Template(before: string, after: string)

  function Format(t: Template, id: string): string {
    t.before + id + t.after
  }

  /** The entries of the dictionary `rtlir_tr_vector_dtype` returns
      (the empty `def` and the raw data type are not kept). */
  datatype DtypeDecl = DtypeDecl(nbits: int, constDecl: Template, decl: Template)

  /** `rtlir_tr_vector_dtype`: `[msb:0] id` and `logic [msb:0] id`
      with `msb` one less than the vector's length. */
  function VectorDtype(nbits: int): DtypeDecl {
    var msb := IntToString(nbits - 1);
    DtypeDecl(nbits, Template("[" + msb + ":0] ", ""), Template("logic [" + msb + ":0] ", ""))
  }

  /** Reads `logic [<msb>:<lsb>] <id>` back. */
  function ParseLogicDecl(s: string): Option<(int, int, string)> {
    if !StartsWith(s, "logic [") then None
    else match SplitAt(s[7..], ':')
      case None => None
      case Some(p) =>
        match SplitAt(p.1, ']')
          case None => None
          case Some(q) =>
            if !StartsWith(q.1, " ") then None
            else match (ParseInt(p.0), ParseInt(q.0))
              case (Some(msb), Some(lsb)) => Some((msb, lsb, q.1[1..]))
              case _ => None
  }

  /** A declared vector has the vector's width: its range is
      `[nbits-1:0]`, and the identifier comes back untouched. */
  lemma VectorDeclRoundTrip(nbits: int, id: string)
    ensures ParseLogicDecl(Format(VectorDtype(nbits).decl, id)) == Some((nbits - 1, 0, id))
  {
    var msb := IntToString(nbits - 1);
    var after := " " + id;
    var mid := "0" + [']'] + after;
    var tail := msb + [':'] + mid;
    var s := Format(VectorDtype(nbits).decl, id);
    VectorDeclShape(msb, id);
    assert s == "logic [" + tail;
    StartsWithConcat("logic [", tail);
    IntToStringAvoids(nbits - 1, ':');
    SplitAtConcat(msb, ':', mid);
    SplitAtConcat("0", ']', after);
    StartsWithConcat(" ", id);
    IntToStringRoundTrip(nbits - 1);
    ParseIntZero();
    ParseLogicDeclOf(s, tail, msb, mid, after, id, nbits - 1);
  }

  /** `ParseLogicDecl` on a string already cut at its delimiters. */
  lemma ParseLogicDeclOf(s: string, tail: string, msb: string, mid: string, after: string, id: string, m: int)
    requires StartsWith(s, "logic [") && s[7..] == tail
    requires SplitAt(tail, ':') == Some((msb, mid))
    requires SplitAt(mid, ']') == Some(("0", after))
    requires StartsWith(after, " ") && after[1..] == id
    requires ParseInt(msb) == Some(m) && ParseInt("0") == Some(0)
    ensures ParseLogicDecl(s) == Some((m, 0, id))
  {
  }

  /** The declaration `logic [<msb>:0] <id>` split at the points the parser cuts it. */
  lemma VectorDeclShape(msb: string, id: string)
    ensures "logic [" + msb + ":0] " + id + "" == "logic [" + (msb + [':'] + ("0" + [']'] + (" " + id)))
  {
    assert ":0] " == [':'] + ("0" + [']'] + " ");
    assert "logic [" + msb + ":0] " + id + "" == "logic [" + msb + ":0] " + id;
  }

  /** The entries of the dictionary `rtlir_tr_unpacked_array_type` returns. */
  datatype ArrayDecl = ArrayDecl(decl: string, nDim: seq<int>)

  /** One step of the `reduce`: `[0:d-1]`. */
  function DimPiece(d: int): string {
    "[0:" + IntToString(d - 1) + "]"
  }

  /** The `reduce` over the dimension sizes, one `DimPiece` per dimension. */
  function DimsDecl(acc: string, dims: seq<int>): string
    decreases |dims|
  {
    if |dims| == 0 then acc
    else DimsDecl(acc + DimPiece(dims[0]), dims[1..])
  }

  /** `rtlir_tr_unpacked_array_type`: nothing for a scalar, otherwise a
      space and one `[0:d-1]` per dimension. */
  function UnpackedArrayType(t: Option<RType>): (r: ArrayDecl)
    requires t.Some? ==> t.value.Array?
    ensures t.None? ==> r == ArrayDecl("", [])
    ensures t.Some? ==> r.nDim == t.value.dimSizes && |r.decl| > 0 && r.decl[0] == ' '
  {
    match t
      case None => ArrayDecl("", [])
      case Some(a) => ArrayDecl(" " + DimsDecl("", a.dimSizes), a.dimSizes)
  }

  lemma {:induction false} DimsDeclAcc(acc: string, dims: seq<int>)
    ensures DimsDecl(acc, dims) == acc + DimsDecl("", dims)
    decreases |dims|
  {
    if |dims| > 0 {
      var piece := DimPiece(dims[0]);
      var rest := DimsDecl("", dims[1..]);
      assert DimsDecl(acc, dims) == DimsDecl(acc + piece, dims[1..]);
      assert DimsDecl("", dims) == DimsDecl(piece, dims[1..]) by {
        assert "" + piece == piece;
      }
      DimsDeclAcc(acc + piece, dims[1..]);
      DimsDeclAcc(piece, dims[1..]);
      ConcatAssoc(acc, piece, rest);
    }
  }

  /** Reads a run of `[0:<int>]` back into dimension sizes. */
  function ParseDims(s: string): Option<seq<int>>
    decreases |s|
  {
    if |s| == 0 then Some([])
    else if !StartsWith(s, "[0:") then None
    else match SplitAt(s[3..], ']')
      case None => None
      case Some(p) =>
        match (ParseInt(p.0), ParseDims(p.1))
          case (Some(hi), Some(ds)) => Some([hi + 1] + ds)
          case _ => None
  }

  /** `ParseDims` on a string already cut at its first piece. */
  lemma ParseDimsOf(s: string, tail: string, hi: string, rest: string, h: int, ds: seq<int>)
    requires |s| > 0 && StartsWith(s, "[0:") && s[3..] == tail
    requires SplitAt(tail, ']') == Some((hi, rest))
    requires ParseInt(hi) == Some(h) && ParseDims(rest) == Some(ds)
    ensures ParseDims(s) == Some([h + 1] + ds)
  {
  }

  /** One piece `[0:<hi>]` in front of the rest, split where the parser cuts it. */
  lemma DimPieceShape(d: int, rest: string)
    ensures DimPiece(d) + rest == "[0:" + (IntToString(d - 1) + [']'] + rest)
  {
    var hi := IntToString(d - 1);
    assert DimPiece(d) == "[0:" + hi + "]";
    assert "[0:" + hi + "]" + rest == "[0:" + (hi + [']'] + rest);
  }

  lemma {:induction false} DimsRoundTrip(dims: seq<int>)
    ensures ParseDims(DimsDecl("", dims)) == Some(dims)
    decreases |dims|
  {
    if |dims| > 0 {
      var hi := IntToString(dims[0] - 1);
      var s := DimsDecl("", dims);
      var rest := DimsDecl("", dims[1..]);
      var tail := hi + [']'] + rest;
      assert s == "[0:" + tail by {
        var piece := DimPiece(dims[0]);
        assert s == DimsDecl(piece, dims[1..]) by {
          assert "" + piece == piece;
        }
        DimsDeclAcc(piece, dims[1..]);
        DimPieceShape(dims[0], rest);
      }
      assert |s| > 0 && StartsWith(s, "[0:") && s[3..] == tail by {
        StartsWithConcat("[0:", tail);
      }
      assert SplitAt(tail, ']') == Some((hi, rest)) by {
        IntToStringAvoids(dims[0] - 1, ']');
        SplitAtConcat(hi, ']', rest);
      }
      assert ParseInt(hi) == Some(dims[0] - 1) by {
        IntToStringRoundTrip(dims[0] - 1);
      }
      DimsRoundTrip(dims[1..]);
      ParseDimsOf(s, tail, hi, rest, dims[0] - 1, dims[1..]);
      HeadTail(dims);
    }
  }

  /** The declared unpacked dimensions read back as the array's own sizes. */
  lemma UnpackedArrayRoundTrip(t: RType)
    requires t.Array?
    ensures ParseDims(UnpackedArrayType(Some(t)).decl[1..]) == Some(t.dimSizes)
  {
    assert UnpackedArrayType(Some(t)).decl[1..] == DimsDecl("", t.dimSizes);
    DimsRoundTrip(t.dimSizes);
  }

  //-----------------------------------------------------------------------
  // Declarations
  //-----------------------------------------------------------------------

  /** `check_decl`: a SystemVerilog keyword cannot be declared. The
      keyword list is not part of this model and is a parameter. */
  function CheckDecl(name: string, reserved: string -> bool): (r: Result<(), SVError>)
    ensures r.Failure? <==> reserved(name)
    ensures r.Failure? ==> r.error == ReservedKeyword(name)
  {
    if reserved(name) then Failure(ReservedKeyword(name)) else Success(())
  }

  /** `rtlir_tr_port_decl`: `<direction> logic [msb:0] <id>` and the
      unpacked dimensions. */
  function PortDecl(id: string, direction: string, arr: ArrayDecl, dtype: DtypeDecl,
                    reserved: string -> bool): (r: Result<string, SVError>)
    ensures r.Failure? <==> reserved(id)
    ensures r.Success? ==> r.value == direction + " " + Format(dtype.decl, id) + arr.decl
  {
    var _ :- CheckDecl(id, reserved);
    Success(direction + " " + Format(dtype.decl, id) + arr.decl)
  }

  /** `rtlir_tr_wire_decl`: the declaration, the unpacked dimensions and `;`. */
  function WireDecl(id: string, arr: ArrayDecl, dtype: DtypeDecl,
                    reserved: string -> bool): (r: Result<string, SVError>)
    ensures r.Failure? <==> reserved(id)
    ensures r.Success? ==> r.value == Format(dtype.decl, id) + arr.decl + ";"
  {
    var _ :- CheckDecl(id, reserved);
    Success(Format(dtype.decl, id) + arr.decl + ";")
  }

  /** Reads `logic [<msb>:0] <id>` and an optional ` [0:d-1]…` suffix back
      as (msb, id, dims); `id` ends at the first space. */
  function ParseDeclBody(s: string): Option<(int, string, seq<int>)> {
    match ParseLogicDecl(s)
      case None => None
      case Some(v) =>
        if v.1 != 0 then None
        else match SplitAt(v.2, ' ')
          case None => Some((v.0, v.2, []))
          case Some(p) =>
            match ParseDims(p.1)
              case None => None
              case Some(ds) => Some((v.0, p.0, ds))
  }

  /** Reads a port declaration `<direction> logic [<msb>:0] <id>[ <dims>]`
      back as (direction, msb, id, dims). */
  function ParsePortDecl(s: string): Option<(string, int, string, seq<int>)> {
    match SplitAt(s, ' ')
      case None => None
      case Some(p) =>
        match ParseDeclBody(p.1)
          case None => None
          case Some(b) => Some((p.0, b.0, b.1, b.2))
  }

  /** Reads a wire declaration `logic [<msb>:0] <id>[ <dims>];` back as (msb, id, dims). */
  function ParseWireDecl(s: string): Option<(int, string, seq<int>)> {
    if |s| == 0 || s[|s| - 1] != ';' then None
    else ParseDeclBody(s[..|s| - 1])
  }

  /** A declared vector followed by the array suffix reads back as the
      vector's msb, the name and the array's dimension sizes. */
  lemma DeclBodyRoundTrip(nbits: int, id: string, t: Option<RType>)
    requires t.Some? ==> t.value.Array?
    requires ' ' !in id
    ensures ParseDeclBody(Format(VectorDtype(nbits).decl, id) + UnpackedArrayType(t).decl)
      == Some((nbits - 1, id, UnpackedArrayType(t).nDim))
  {
    if t.None? {
      assert UnpackedArrayType(t) == ArrayDecl("", []);
      ScalarDeclBodyRoundTrip(nbits, id);
    } else {
      ArrayDeclBodyRoundTrip(nbits, id, t.value);
    }
  }

  lemma ScalarDeclBodyRoundTrip(nbits: int, id: string)
    requires ' ' !in id
    ensures ParseDeclBody(Format(VectorDtype(nbits).decl, id) + "") == Some((nbits - 1, id, []))
  {
    var body := Format(VectorDtype(nbits).decl, id) + "";
    assert body == Format(VectorDtype(nbits).decl, id);
    VectorDeclRoundTrip(nbits, id);
    DeclBodyScalar(body, nbits - 1, id);
  }

  lemma ArrayDeclBodyRoundTrip(nbits: int, id: string, t: RType)
    requires t.Array? && ' ' !in id
    ensures ParseDeclBody(Format(VectorDtype(nbits).decl, id) + UnpackedArrayType(Some(t)).decl)
      == Some((nbits - 1, id, t.dimSizes))
  {
    var dims := DimsDecl("", t.dimSizes);
    assert UnpackedArrayType(Some(t)).decl == " " + dims;
    VectorDeclRoundTrip(nbits, id + [' '] + dims);
    DimsRoundTrip(t.dimSizes);
    ArrayBodyOf(VectorDtype(nbits).decl, id, dims, t.dimSizes, nbits - 1);
  }

  lemma ArrayBodyOf(tpl: Template, id: string, dims: string, ds: seq<int>, m: int)
    requires tpl.after == "" && ' ' !in id
    requires ParseLogicDecl(Format(tpl, id + [' '] + dims)) == Some((m, 0, id + [' '] + dims))
    requires ParseDims(dims) == Some(ds)
    ensures ParseDeclBody(Format(tpl, id) + (" " + dims)) == Some((m, id, ds))
  {
    var body := Format(tpl, id) + (" " + dims);
    assert body == Format(tpl, id + [' '] + dims) by {
      FormatAppend(tpl, id, " " + dims);
      assert id + (" " + dims) == id + [' '] + dims;
    }
    DeclBodyArray(body, m, id, dims, ds);
  }

  /** A template with nothing after its hole takes a longer name as a suffix. */
  lemma FormatAppend(t: Template, id: string, x: string)
    requires t.after == ""
    ensures Format(t, id) + x == Format(t, id + x)
  {
    assert Format(t, id) == t.before + id;
    assert Format(t, id + x) == t.before + (id + x);
  }

  lemma DeclBodyScalar(s: string, m: int, id: string)
    requires ParseLogicDecl(s) == Some((m, 0, id)) && ' ' !in id
    ensures ParseDeclBody(s) == Some((m, id, []))
  {
  }

  lemma DeclBodyArray(s: string, m: int, id: string, rest: string, ds: seq<int>)
    requires ParseLogicDecl(s) == Some((m, 0, id + [' '] + rest)) && ' ' !in id
    requires ParseDims(rest) == Some(ds)
    ensures ParseDeclBody(s) == Some((m, id, ds))
  {
    SplitAtConcat(id, ' ', rest);
  }

  /** A port declaration reads back as its direction, the vector's msb,
      the port's name and the array's dimension sizes. */
  lemma PortDeclRoundTrip(id: string, direction: string, t: Option<RType>, nbits: int, reserved: string -> bool)
    requires t.Some? ==> t.value.Array?
    requires ' ' !in direction && ' ' !in id
    ensures var r := PortDecl(id, direction, UnpackedArrayType(t), VectorDtype(nbits), reserved);
      r.Success? ==> ParsePortDecl(r.value) == Some((direction, nbits - 1, id, UnpackedArrayType(t).nDim))
  {
    var body := Format(VectorDtype(nbits).decl, id) + UnpackedArrayType(t).decl;
    DeclBodyRoundTrip(nbits, id, t);
    PortDeclShape(direction, Format(VectorDtype(nbits).decl, id), UnpackedArrayType(t).decl);
    SplitAtConcat(direction, ' ', body);
    ParsePortDeclOf(direction + [' '] + body, direction, body);
  }

  lemma PortDeclShape(direction: string, decl: string, x: string)
    ensures direction + " " + decl + x == direction + [' '] + (decl + x)
  {
  }

  /** `ParsePortDecl` once the direction has been split off. */
  lemma ParsePortDeclOf(s: string, direction: string, body: string)
    requires SplitAt(s, ' ') == Some((direction, body)) && ParseDeclBody(body).Some?
    ensures ParsePortDecl(s) == Some((direction, ParseDeclBody(body).value.0,
                                      ParseDeclBody(body).value.1, ParseDeclBody(body).value.2))
  {
  }

  /** A wire declaration reads back as the vector's msb, the wire's name
      and the array's dimension sizes. */
  lemma WireDeclRoundTrip(id: string, t: Option<RType>, nbits: int, reserved: string -> bool)
    requires t.Some? ==> t.value.Array?
    requires ' ' !in id
    ensures var r := WireDecl(id, UnpackedArrayType(t), VectorDtype(nbits), reserved);
      r.Success? ==> ParseWireDecl(r.value) == Some((nbits - 1, id, UnpackedArrayType(t).nDim))
  {
    var body := Format(VectorDtype(nbits).decl, id) + UnpackedArrayType(t).decl;
    DeclBodyRoundTrip(nbits, id, t);
    WireDeclOf(body);
  }

  /** `ParseWireDecl` strips the final `;`. */
  lemma WireDeclOf(body: string)
    ensures ParseWireDecl(body + ";") == ParseDeclBody(body)
  {
    assert (body + ";")[..|body|] == body;
  }

  /** The scalar a constant element becomes: a `Bits` keeps its width,
      a Python int (a bool included) is 32 bits wide. */
  datatype ParamLit = Scalar(nbits: int, value: int) | Group(elems: seq<ParamLit>)

  predicate IsScalarObj(a: PyObj) {
    a.PyBits? || a.PyInt? || a.PyBool?
  }

  function ScalarLit(a: PyObj): ParamLit
    requires IsScalarObj(a)
  {
    match a
      case PyBits(n, v) => Scalar(n, v)
      case PyInt(i) => Scalar(32, i)
      case PyBool(b) => Scalar(32, if b then 1 else 0)
  }

  function Width(d: int): nat {
    if d < 0 then 0 else d
  }

  /** A constant value fits the dimensions: a scalar when there are none,
      otherwise a list with at least `n_dim[0]` entries, each of which
      fits the remaining dimensions (extra entries are never looked at). */
  predicate Conforms(nd: seq<int>, a: PyObj)
    decreases |nd|
  {
    if |nd| == 0 then IsScalarObj(a)
    else a.PyList? && Width(nd[0]) <= |a.items|
         && forall i :: 0 <= i < Width(nd[0]) ==> Conforms(nd[1..], a.items[i])
  }

  /** `gen_array_param`. */
  function GenArrayParam(nd: seq<int>, a: PyObj): (r: Result<string, SVError>)
    ensures r.Success? <==> Conforms(nd, a)
    decreases |nd|, 1, 0
  {
    if |nd| == 0 then
      match a
        case PyList(_) => Failure(ScalarIsList)
        case PyBits(n, v) => Success(Literal(n, v))
        case PyInt(i) => Success(Literal(32, i))
        case PyBool(b) => Success(Literal(32, if b then 1 else 0))
        case _ => Failure(NotAnInteger)
    else if !a.PyList? then Failure(NotAList)
    else
      var body :- GenElems(nd, a.items, 0, "'{ ");
      Success(body + " }")
  }

  /** The `for` loop of `gen_array_param`, from index `i` on. */
  function GenElems(nd: seq<int>, items: seq<PyObj>, i: nat, acc: string): (r: Result<string, SVError>)
    requires |nd| > 0
    ensures r.Success? <==>
      (Width(nd[0]) <= i || Width(nd[0]) <= |items|) &&
      forall j :: i <= j < Width(nd[0]) ==> Conforms(nd[1..], items[j])
    decreases |nd|, 0, Width(nd[0]) - i
  {
    if Width(nd[0]) <= i then Success(acc)
    else if |items| <= i then Failure(IndexOutOfRange)
    else
      var e :- GenArrayParam(nd[1..], items[i]);
      GenElems(nd, items, i + 1, acc + (if i != 0 then ", " else "") + e)
  }

  /** `rtlir_tr_const_decl`: `localparam [msb:0] <id><dims> = <value>;`. */
  function ConstDecl(id: string, elemType: DataType, arr: ArrayDecl, dtype: DtypeDecl,
                     value: PyObj, reserved: string -> bool): (r: Result<string, SVError>)
    ensures r.Success? <==> elemType.Vector? && !reserved(id) && Conforms(arr.nDim, value)
    ensures !elemType.Vector? ==> r == Failure(NotVectorConstant)
    ensures r.Success? ==>
      r.value == "localparam " + Format(dtype.constDecl, id) + arr.decl + " = "
                 + GenArrayParam(arr.nDim, value).value + ";"
  {
    if !elemType.Vector? then Failure(NotVectorConstant)
    else
      var _ :- CheckDecl(id, reserved);
      var v :- GenArrayParam(arr.nDim, value);
      Success("localparam " + Format(dtype.constDecl, id) + arr.decl + " = " + v + ";")
  }

  //-----------------------------------------------------------------------
  // Constant array literals as trees
  //-----------------------------------------------------------------------

  /** The literal tree a conforming constant denotes. */
  function ToLit(nd: seq<int>, a: PyObj): (r: ParamLit)
    requires Conforms(nd, a)
    ensures HasShape(r, nd)
    decreases |nd|
  {
    if |nd| == 0 then ScalarLit(a)
    else Group(seq(Width(nd[0]), i requires 0 <= i < Width(nd[0]) => ToLit(nd[1..], a.items[i])))
  }

  /** A literal tree whose nesting follows the dimension sizes. */
  predicate HasShape(l: ParamLit, nd: seq<int>)
    decreases |nd|
  {
    if |nd| == 0 then l.Scalar?
    else l.Group? && |l.elems| == Width(nd[0])
         && forall i :: 0 <= i < |l.elems| ==> HasShape(l.elems[i], nd[1..])
  }

  /** The scalar at a path of indices, for trees and for Python values. */
  function LitAt(l: ParamLit, path: seq<nat>): Option<ParamLit>
    decreases |path|
  {
    if |path| == 0 then Some(l)
    else if l.Group? && path[0] < |l.elems| then LitAt(l.elems[path[0]], path[1..])
    else None
  }

  function ObjAt(a: PyObj, path: seq<nat>): Option<PyObj>
    decreases |path|
  {
    if |path| == 0 then Some(a)
    else if a.PyList? && path[0] < |a.items| then ObjAt(a.items[path[0]], path[1..])
    else None
  }

  /** Element `path` of the literal is the literal of element `path` of
      the constant, for every in-range path through all dimensions. */
  lemma {:induction false} ToLitLeaves(nd: seq<int>, a: PyObj, path: seq<nat>)
    requires Conforms(nd, a)
    requires |path| == |nd| && forall k :: 0 <= k < |nd| ==> path[k] < Width(nd[k])
    ensures ObjAt(a, path).Some? && IsScalarObj(ObjAt(a, path).value)
    ensures LitAt(ToLit(nd, a), path) == Some(ScalarLit(ObjAt(a, path).value))
    decreases |nd|
  {
    if |nd| > 0 {
      var i := path[0];
      assert forall k :: 0 <= k < |nd| - 1 ==> path[1..][k] == path[k + 1] && nd[1..][k] == nd[k + 1];
      ToLitLeaves(nd[1..], a.items[i], path[1..]);
    }
  }

  function RenderAll(es: seq<ParamLit>): (r: seq<string>)
    ensures |r| == |es|
    decreases es, 0
  {
    seq(|es|, i requires 0 <= i < |es| => Render(es[i]))
  }

  /** The text of a literal tree: `<n>'d<v>` or `'{ e0, e1, … }`. */
  function Render(l: ParamLit): string
    decreases l, 1
  {
    match l
      case Scalar(n, v) => Literal(n, v)
      case Group(es) => "'{ " + Join(", ", RenderAll(es)) + " }"
  }

  /** The strings that follow the `i`-th element in the loop. */
  function Tail(xs: seq<string>, i: nat): string
    decreases |xs| - i
  {
    if |xs| <= i then "" else ", " + xs[i] + Tail(xs, i + 1)
  }

  lemma {:induction false} JoinTail(xs: seq<string>, i: nat)
    requires i < |xs|
    ensures Join(", ", xs[i..]) == xs[i] + Tail(xs, i + 1)
    decreases |xs| - i
  {
    if i + 1 < |xs| {
      assert xs[i..][1..] == xs[i + 1..];
      JoinTail(xs, i + 1);
    }
  }

  /** The text the loop adds from element `i` on. */
  function Rest(xs: seq<string>, i: nat): string {
    if i == 0 then Join(", ", xs) else Tail(xs, i)
  }

  lemma {:induction false} GenElemsRenders(nd: seq<int>, a: PyObj, i: nat, acc: string)
    requires |nd| > 0 && Conforms(nd, a) && i <= Width(nd[0])
    ensures GenElems(nd, a.items, i, acc) == Success(acc + Rest(RenderAll(ToLit(nd, a).elems), i))
    decreases |nd|, 0, Width(nd[0]) - i
  {
    var xs := RenderAll(ToLit(nd, a).elems);
    assert |xs| == Width(nd[0]);
    if i < Width(nd[0]) {
      GenArrayParamRenders(nd[1..], a.items[i]);
      var e := Render(ToLit(nd[1..], a.items[i]));
      assert xs[i] == e;
      var sep := if i != 0 then ", " else "";
      GenElemsRenders(nd, a, i + 1, acc + sep + e);
      assert GenElems(nd, a.items, i, acc) == Success(acc + sep + e + Tail(xs, i + 1));
      if i == 0 {
        JoinTail(xs, 0);
        assert xs[0..] == xs;
        assert acc + sep == acc;
        ConcatAssoc(acc, e, Tail(xs, 1));
      } else {
        ConcatAssoc(acc, ", ", e);
        ConcatAssoc(acc, ", " + e, Tail(xs, i + 1));
      }
    } else {
      assert Rest(xs, i) == "";
      assert acc + "" == acc;
    }
  }

  /** `gen_array_param` renders the literal tree of the constant. */
  lemma {:induction false} GenArrayParamRenders(nd: seq<int>, a: PyObj)
    requires Conforms(nd, a)
    ensures GenArrayParam(nd, a) == Success(Render(ToLit(nd, a)))
    decreases |nd|, 1, 0
  {
    if |nd| > 0 {
      GenElemsRenders(nd, a, 0, "'{ ");
    }
  }

  //-----------------------------------------------------------------------
  // Reading a literal tree back
  //-----------------------------------------------------------------------

  /** A scalar ends where the next character is not a digit. */
  predicate Delimited(rest: string) {
    |rest| == 0 || !IsDigit(rest[0])
  }

  /** The longest run of digits at the start of `s`. */
  function DigitRun(s: string): (r: string)
    ensures |r| <= |s| && r == s[..|r|] && AllDigits(r)
    ensures Delimited(s[|r|..])
  {
    if |s| == 0 || !IsDigit(s[0]) then ""
    else [s[0]] + DigitRun(s[1..])
  }

  lemma {:induction false} DigitRunConcat(t: string, rest: string)
    requires AllDigits(t) && Delimited(rest)
    ensures DigitRun(t + rest) == t
    decreases |t|
  {
    if |t| > 0 {
      assert (t + rest)[1..] == t[1..] + rest;
      DigitRunConcat(t[1..], rest);
      HeadTail(t);
    } else {
      assert t + rest == rest;
    }
  }

  /** An optionally negative decimal integer at the start of `s`. */
  function ParseIntPrefix(s: string): (r: Option<(int, string)>)
    ensures r.Some? ==> |r.value.1| < |s|
  {
    if |s| > 0 && s[0] == '-' then
      var run := DigitRun(s[1..]);
      if |run| == 0 then None else Some((-(ParseNat(run) as int), s[1 + |run|..]))
    else
      var run := DigitRun(s);
      if |run| == 0 then None else Some((ParseNat(run), s[|run|..]))
  }

  lemma IntPrefixRoundTrip(i: int, rest: string)
    requires Delimited(rest)
    ensures ParseIntPrefix(IntToString(i) + rest) == Some((i, rest))
  {
    if i < 0 {
      NegPrefixRoundTrip(-i, rest);
      assert IntToString(i) == "-" + NatToString(-i);
    } else {
      NatPrefixRoundTrip(i, rest);
    }
  }

  lemma NatPrefixRoundTrip(n: nat, rest: string)
    requires Delimited(rest)
    ensures ParseIntPrefix(NatToString(n) + rest) == Some((n, rest))
  {
    var t := NatToString(n);
    var s := t + rest;
    assert s[0] == t[0];
    DigitRunConcat(t, rest);
    assert s[|t|..] == rest;
    NatToStringRoundTrip(n);
  }

  lemma NegPrefixRoundTrip(n: nat, rest: string)
    requires Delimited(rest) && n > 0
    ensures ParseIntPrefix("-" + NatToString(n) + rest) == Some((-(n as int), rest))
  {
    var t := NatToString(n);
    var body := t + rest;
    var s := "-" + t + rest;
    ConcatAssoc("-", t, rest);
    StartsWithConcat("-", body);
    DigitRunConcat(t, rest);
    assert body[|t|..] == rest;
    NatToStringRoundTrip(n);
    NegPrefixOf(s, body, t, rest);
  }

  /** `ParseIntPrefix` on `-` followed by a digit run and the rest. */
  lemma NegPrefixOf(s: string, body: string, t: string, rest: string)
    requires StartsWith(s, "-") && s[1..] == body
    requires DigitRun(body) == t && |t| > 0 && body[|t|..] == rest
    ensures ParseIntPrefix(s) == Some((-(ParseNat(t) as int), rest))
  {
    assert s[0] == '-';
    assert s[1 + |t|..] == body[|t|..];
  }

  function ParseScalar(s: string): (r: Option<(ParamLit, string)>)
    ensures r.Some? ==> |r.value.1| < |s|
  {
    match ParseIntPrefix(s)
      case None => None
      case Some(p) =>
        if !StartsWith(p.1, "'d") then None
        else match ParseIntPrefix(p.1[2..])
          case None => None
          case Some(q) => Some((Scalar(p.0, q.0), q.1))
  }

  /** Reads a literal tree from the start of `s`; returns what follows it. */
  function ParseLit(s: string): (r: Option<(ParamLit, string)>)
    ensures r.Some? ==> |r.value.1| < |s|
    decreases |s|, 0
  {
    if StartsWith(s, "'{ ") then
      if StartsWith(s[3..], " }") then Some((Group([]), s[5..]))
      else match ParseGroupBody(s[3..])
        case None => None
        case Some(p) => Some((Group(p.0), p.1))
    else ParseScalar(s)
  }

  /** Reads `e0, e1, … }` (at least one element). */
  function ParseGroupBody(s: string): (r: Option<(seq<ParamLit>, string)>)
    ensures r.Some? ==> |r.value.1| < |s|
    decreases |s|, 1
  {
    match ParseLit(s)
      case None => None
      case Some(p) =>
        if StartsWith(p.1, " }") then Some(([p.0], p.1[2..]))
        else if StartsWith(p.1, ", ") then
          match ParseGroupBody(p.1[2..])
            case None => None
            case Some(q) => Some(([p.0] + q.0, q.1))
        else None
  }

  lemma ScalarParses(n: int, v: int, rest: string)
    requires Delimited(rest)
    ensures ParseScalar(Literal(n, v) + rest) == Some((Scalar(n, v), rest))
  {
    var tail := IntToString(v) + rest;
    var after := "'d" + tail;
    assert Literal(n, v) + rest == IntToString(n) + after;
    IntPrefixRoundTrip(n, after);
    StartsWithConcat("'d", tail);
    IntPrefixRoundTrip(v, rest);
  }

  lemma ScalarRoundTrip(n: int, v: int, rest: string)
    requires Delimited(rest)
    ensures ParseLit(Literal(n, v) + rest) == Some((Scalar(n, v), rest))
  {
    ScalarParses(n, v, rest);
    LiteralHead(n, v);
    NotQuoted(Literal(n, v), rest);
    ParseLitScalar(Literal(n, v) + rest);
  }

  lemma LiteralHead(n: int, v: int)
    ensures |Literal(n, v)| > 0 && Literal(n, v)[0] != '\''
  {
    assert Literal(n, v)[0] == IntToString(n)[0];
  }

  lemma ParseLitScalar(s: string)
    requires !StartsWith(s, "'{ ")
    ensures ParseLit(s) == ParseScalar(s)
  {
  }

  /** Text that starts with an integer does not open a group. */
  lemma NotQuoted(x: string, y: string)
    requires |x| > 0 && x[0] != '\''
    ensures !StartsWith(x + y, "'{ ")
  {
    assert (x + y)[0] == x[0];
  }

  lemma {:induction false} LitRoundTrip(l: ParamLit, rest: string)
    requires Delimited(rest)
    ensures ParseLit(Render(l) + rest) == Some((l, rest))
    decreases l, 1
  {
    match l
      case Scalar(n, v) => ScalarRoundTrip(n, v, rest);
      case Group(es) =>
        var xs := RenderAll(es);
        if |es| == 0 {
          assert Render(l) + rest == "'{ " + (" }" + rest);
          EmptyGroupParses(rest);
        } else {
          var body := Join(", ", xs) + " }" + rest;
          assert Render(l) + rest == "'{ " + body;
          BodyRoundTrip(es, rest);
          BodyHead(es, rest);
          GroupParses(body, es, rest);
        }
  }

  lemma EmptyGroupParses(rest: string)
    ensures ParseLit("'{ " + (" }" + rest)) == Some((Group([]), rest))
  {
    StartsWithConcat("'{ ", " }" + rest);
    StartsWithConcat(" }", rest);
  }

  lemma GroupParses(body: string, es: seq<ParamLit>, rest: string)
    requires ParseGroupBody(body) == Some((es, rest)) && !StartsWith(body, " }")
    ensures ParseLit("'{ " + body) == Some((Group(es), rest))
  {
    StartsWithConcat("'{ ", body);
  }

  /** A group's body starts with its first element, never with ` }`. */
  lemma BodyHead(es: seq<ParamLit>, rest: string)
    requires |es| > 0
    ensures !StartsWith(Join(", ", RenderAll(es)) + " }" + rest, " }")
  {
    var xs := RenderAll(es);
    assert xs[0] == Render(es[0]);
    FirstOfLit(es[0]);
    JoinHead(", ", xs);
    var j := Join(", ", xs);
    assert (j + " }" + rest)[0] == j[0];
    NotStartsWith(j + " }" + rest, " }");
  }

  lemma JoinHead(sep: string, xs: seq<string>)
    requires |xs| > 0 && |xs[0]| > 0
    ensures |Join(sep, xs)| > 0 && Join(sep, xs)[0] == xs[0][0]
  {
    if |xs| > 1 {
      assert Join(sep, xs) == xs[0] + (sep + Join(sep, xs[1..]));
    }
  }

  /** A rendered tree starts with a digit, a '-' or a quote. */
  lemma FirstOfLit(l: ParamLit)
    ensures |Render(l)| > 0 && (IsDigit(Render(l)[0]) || Render(l)[0] == '-' || Render(l)[0] == '\'')
  {
    match l
      case Scalar(n, v) =>
        assert Render(l)[0] == IntToString(n)[0];
      case Group(es) =>
  }

  lemma {:induction false} BodyRoundTrip(es: seq<ParamLit>, rest: string)
    requires |es| > 0 && Delimited(rest)
    ensures ParseGroupBody(Join(", ", RenderAll(es)) + " }" + rest) == Some((es, rest))
    decreases es, 1
  {
    if |es| == 1 {
      BodyOneRoundTrip(es, rest);
    } else {
      BodyMoreRoundTrip(es, rest);
    }
  }

  lemma {:induction false} BodyOneRoundTrip(es: seq<ParamLit>, rest: string)
    requires |es| == 1 && Delimited(rest)
    ensures ParseGroupBody(Join(", ", RenderAll(es)) + " }" + rest) == Some((es, rest))
    decreases es, 0
  {
    var x := Render(es[0]);
    assert Join(", ", RenderAll(es)) == x;
    ConcatAssoc(x, " }", rest);
    LitRoundTrip(es[0], " }" + rest);
    BodyLastOf(x + (" }" + rest), es[0], rest);
    assert [es[0]] == es;
  }

  lemma {:induction false} BodyMoreRoundTrip(es: seq<ParamLit>, rest: string)
    requires |es| > 1 && Delimited(rest)
    ensures ParseGroupBody(Join(", ", RenderAll(es)) + " }" + rest) == Some((es, rest))
    decreases es, 0
  {
    var xs := RenderAll(es);
    RenderAllCons(es);
    var more := Join(", ", xs[1..]) + " }" + rest;
    JoinConsShape(xs, rest);
    LitRoundTrip(es[0], ", " + more);
    BodyRoundTrip(es[1..], rest);
    BodyConsOf(xs[0] + (", " + more), es[0], more, es[1..], rest);
    HeadTail(es);
  }

  lemma RenderAllCons(es: seq<ParamLit>)
    requires |es| > 0
    ensures RenderAll(es)[0] == Render(es[0]) && RenderAll(es[1..]) == RenderAll(es)[1..]
  {
    var a, b := RenderAll(es), RenderAll(es[1..]);
    forall i | 0 <= i < |b| ensures b[i] == a[1..][i] {
      assert es[1..][i] == es[i + 1];
    }
  }

  /** A group body of several elements, cut after its first element. */
  lemma JoinConsShape(xs: seq<string>, rest: string)
    requires |xs| > 1
    ensures Join(", ", xs) + " }" + rest == xs[0] + (", " + (Join(", ", xs[1..]) + " }" + rest))
  {
    assert Join(", ", xs) == xs[0] + ", " + Join(", ", xs[1..]);
    Regroup(xs[0], ", ", Join(", ", xs[1..]), " }", rest);
  }

  /** The last element of a group body, followed by ` }`. */
  lemma BodyLastOf(s: string, l: ParamLit, rest: string)
    requires ParseLit(s) == Some((l, " }" + rest))
    ensures ParseGroupBody(s) == Some(([l], rest))
  {
    StartsWithConcat(" }", rest);
  }

  /** An element of a group body followed by `, ` and the remaining elements. */
  lemma BodyConsOf(s: string, l: ParamLit, more: string, ls: seq<ParamLit>, rest: string)
    requires ParseLit(s) == Some((l, ", " + more))
    requires ParseGroupBody(more) == Some((ls, rest))
    ensures ParseGroupBody(s) == Some(([l] + ls, rest))
  {
    StartsWithConcat(", ", more);
    NotStartsWith(", " + more, " }");
  }

  /** The constant's literal reads back as a tree of the declared shape
      whose every element is the literal of the constant's element. */
  lemma GenArrayParamDecodes(nd: seq<int>, a: PyObj)
    requires Conforms(nd, a)
    ensures GenArrayParam(nd, a).Success?
    ensures ParseLit(GenArrayParam(nd, a).value) == Some((ToLit(nd, a), ""))
    ensures HasShape(ToLit(nd, a), nd)
  {
    GenArrayParamRenders(nd, a);
    LitRoundTrip(ToLit(nd, a), "");
    assert Render(ToLit(nd, a)) + "" == Render(ToLit(nd, a));
  }

  //-----------------------------------------------------------------------
  // Connections and signal operations
  //-----------------------------------------------------------------------

  /** `rtlir_tr_connection`: the read side is assigned the written side. */
  function Connection(wr: string, rd: string): string {
    "assign " + rd + " = " + wr + ";"
  }

  /** Reads `assign <rd> = <wr>;` back as (wr, rd). */
  function ParseConnection(s: string): Option<(string, string)> {
    if |s| < 8 || s[..7] != "assign " || s[|s| - 1] != ';' then None
    else match SplitAt(s[7..|s| - 1], ' ')
      case None => None
      case Some(p) =>
        if |p.1| < 2 || p.1[..2] != "= " then None
        else Some((p.1[2..], p.0))
  }

  /** A connection reads back as its two signals when the read-side name
      holds no space. */
  lemma ConnectionRoundTrip(wr: string, rd: string)
    requires ' ' !in rd
    ensures ParseConnection(Connection(wr, rd)) == Some((wr, rd))
  {
    var s := Connection(wr, rd);
    assert s[..7] == "assign ";
    assert s[7..|s| - 1] == rd + [' '] + ("= " + wr);
    SplitAtConcat(rd, ' ', "= " + wr);
    assert ("= " + wr)[2..] == wr;
  }

  /** `rtlir_tr_bit_selection` and the port, wire and constant array
      index builders, which share the form `base[index]`. */
  function Index(base: string, index: int): string {
    base + "[" + IntToString(index) + "]"
  }

  function BitSelection(base: string, index: int): string {
    Index(base, index)
  }

  function PortArrayIndex(base: string, index: int): string {
    Index(base, index)
  }

  function WireArrayIndex(base: string, index: int): string {
    Index(base, index)
  }

  function ConstArrayIndex(base: string, index: int): string {
    Index(base, index)
  }

  /** Reads `base[<int>]` back, splitting at the last '['. */
  function ParseIndex(s: string): Option<(string, int)> {
    if |s| == 0 || s[|s| - 1] != ']' then None
    else match SplitLast(s[..|s| - 1], '[')
      case None => None
      case Some(p) =>
        match ParseInt(p.1)
          case None => None
          case Some(i) => Some((p.0, i))
  }

  lemma IndexRoundTrip(base: string, index: int)
    ensures ParseIndex(Index(base, index)) == Some((base, index))
  {
    var s := Index(base, index);
    assert s[..|s| - 1] == base + ['['] + IntToString(index);
    IntToStringAvoids(index, '[');
    SplitLastConcat(base, '[', IntToString(index));
    IntToStringRoundTrip(index);
  }

  /** `rtlir_tr_part_selection`: the Python slice `[start:stop]` becomes
      the range `[stop-1:start]`. */
  function PartSelection(base: string, start: int, stop: int): string {
    base + "[" + IntToString(stop - 1) + ":" + IntToString(start) + "]"
  }

  /** Bit `k` lies in the SystemVerilog range `[msb:lsb]`. */
  predicate InSvRange(k: int, msb: int, lsb: int) {
    lsb <= k <= msb
  }

  /** Bit `k` lies in the Python slice `[start:stop]`. */
  predicate InSlice(k: int, start: int, stop: int) {
    start <= k < stop
  }

  /** Reads `base[<msb>:<lsb>]` back as (base, msb, lsb). */
  function ParsePartSelection(s: string): Option<(string, int, int)> {
    if |s| == 0 || s[|s| - 1] != ']' then None
    else match SplitLast(s[..|s| - 1], '[')
      case None => None
      case Some(p) =>
        match SplitAt(p.1, ':')
          case None => None
          case Some(q) =>
            match (ParseInt(q.0), ParseInt(q.1))
              case (Some(msb), Some(lsb)) => Some((p.0, msb, lsb))
              case _ => None
  }

  /** The selected SystemVerilog range covers exactly the bits of the
      Python slice: `lsb <= k <= msb` iff `start <= k < stop`. */
  lemma PartSelectionRoundTrip(base: string, start: int, stop: int)
    ensures ParsePartSelection(PartSelection(base, start, stop)) == Some((base, stop - 1, start))
    ensures forall k :: InSvRange(k, stop - 1, start) <==> InSlice(k, start, stop)
  {
    var msb := IntToString(stop - 1);
    var lsb := IntToString(start);
    IntToStringAvoids(stop - 1, '[');
    IntToStringAvoids(start, '[');
    IntToStringAvoids(stop - 1, ':');
    IntToStringRoundTrip(stop - 1);
    IntToStringRoundTrip(start);
    PartSelectionParses(base, msb, lsb, stop - 1, start);
  }

  /** A part selection whose bounds read back as integers reads back whole. */
  lemma PartSelectionParses(base: string, msb: string, lsb: string, m: int, l: int)
    requires '[' !in msb && '[' !in lsb && ':' !in msb
    requires ParseInt(msb) == Some(m) && ParseInt(lsb) == Some(l)
    ensures ParsePartSelection(base + "[" + msb + ":" + lsb + "]") == Some((base, m, l))
  {
    var s := base + "[" + msb + ":" + lsb + "]";
    var range := msb + ":" + lsb;
    PartSelectionShape(base, msb, lsb);
    NotInConcat(msb, ":", lsb, '[');
    SplitLastConcat(base, '[', range);
    SplitAtConcat(msb, ':', lsb);
    ParsePartSelectionOf(s, base, range, msb, lsb, m, l);
  }

  /** The text of a part selection, cut where the parser cuts it. */
  lemma PartSelectionShape(base: string, msb: string, lsb: string)
    ensures var s := base + "[" + msb + ":" + lsb + "]";
      |s| > 0 && s[|s| - 1] == ']' && s[..|s| - 1] == base + ['['] + (msb + ":" + lsb)
      && msb + ":" + lsb == msb + [':'] + lsb
  {
    var s := base + "[" + msb + ":" + lsb + "]";
    assert s == (base + ['['] + (msb + ":" + lsb)) + [']'];
  }

  lemma NotInConcat(a: string, b: string, c: string, x: char)
    requires x !in a && x !in b && x !in c
    ensures x !in a + b + c
  {
  }

  /** `ParsePartSelection` on a string already cut at its brackets and colon. */
  lemma ParsePartSelectionOf(s: string, base: string, range: string, msb: string, lsb: string, m: int, l: int)
    requires |s| > 0 && s[|s| - 1] == ']'
    requires SplitLast(s[..|s| - 1], '[') == Some((base, range))
    requires SplitAt(range, ':') == Some((msb, lsb))
    requires ParseInt(msb) == Some(m) && ParseInt(lsb) == Some(l)
    ensures ParsePartSelection(s) == Some((base, m, l))
  {
  }

  /** `rtlir_tr_current_comp_attr` and `rtlir_tr_current_comp`: an
      attribute of the component being translated is its bare name. */
  function CurrentCompAttr(base: string, attr: string): (r: string)
    ensures r == attr
  {
    attr
  }

  function CurrentComp(compId: string): (r: string)
    ensures |r| == 0
  {
    ""
  }

  //-----------------------------------------------------------------------
  // Identifier mangling
  //-----------------------------------------------------------------------

  /** `str.replace( c, r )` for a single character. */
  function ReplaceChar(s: string, c: char, r: string): string {
    if |s| == 0 then ""
    else (if s[0] == c then r else [s[0]]) + ReplaceChar(s[1..], c, r)
  }

  lemma {:induction false} ReplaceCharConcat(a: string, b: string, c: char, r: string)
    ensures ReplaceChar(a + b, c, r) == ReplaceChar(a, c, r) + ReplaceChar(b, c, r)
    decreases |a|
  {
    if |a| > 0 {
      assert (a + b)[1..] == a[1..] + b;
      ReplaceCharConcat(a[1..], b, c, r);
    } else {
      assert a + b == b;
    }
  }

  lemma {:induction false} ReplaceCharRemoves(s: string, c: char, r: string, x: char)
    requires x == c || x !in s
    requires x !in r
    ensures x !in ReplaceChar(s, c, r)
    decreases |s|
  {
    if |s| > 0 {
      ReplaceCharRemoves(s[1..], c, r, x);
    }
  }

  lemma {:induction false} ReplaceCharAbsent(s: string, c: char, r: string)
    requires c !in s
    ensures ReplaceChar(s, c, r) == s
    decreases |s|
  {
    if |s| > 0 {
      ReplaceCharAbsent(s[1..], c, r);
      assert [s[0]] + s[1..] == s;
    }
  }

  /** `rtlir_tr_var_id`: '[' becomes `_$`, then every ']' is dropped. */
  function VarId(id: string): string {
    ReplaceChar(ReplaceChar(id, '[', "_$"), ']', "")
  }

  /** A mangled name holds no bracket, and a name without brackets is
      left as it is. */
  lemma VarIdNoBrackets(id: string)
    ensures '[' !in VarId(id) && ']' !in VarId(id)
    ensures ('[' !in id && ']' !in id) ==> VarId(id) == id
  {
    ReplaceCharRemoves(id, '[', "_$", '[');
    ReplaceCharRemoves(ReplaceChar(id, '[', "_$"), ']', "", '[');
    ReplaceCharRemoves(ReplaceChar(id, '[', "_$"), ']', "", ']');
    if '[' !in id && ']' !in id {
      ReplaceCharAbsent(id, '[', "_$");
      ReplaceCharAbsent(id, ']', "");
    }
  }

  lemma VarIdConcat(a: string, b: string)
    ensures VarId(a + b) == VarId(a) + VarId(b)
  {
    ReplaceCharConcat(a, b, '[', "_$");
    ReplaceCharConcat(ReplaceChar(a, '[', "_$"), ReplaceChar(b, '[', "_$"), ']', "");
  }

  /** The mangled form of an index suffix: `_$i` per index. */
  function MangledSuffix(idx: seq<nat>): string {
    if |idx| == 0 then "" else "_$" + NatToString(idx[0]) + MangledSuffix(idx[1..])
  }

  lemma {:induction false} VarIdSuffix(idx: seq<nat>)
    ensures VarId(Suffix(idx)) == MangledSuffix(idx)
    decreases |idx|
  {
    if |idx| > 0 {
      var d := NatToString(idx[0]);
      var rest := Suffix(idx[1..]);
      assert Suffix(idx) == "[" + d + "]" + rest;
      assert MangledSuffix(idx) == "_$" + d + MangledSuffix(idx[1..]);
      VarIdConcat("[" + d + "]", rest);
      VarIdOfIndex(idx[0]);
      VarIdSuffix(idx[1..]);
    }
  }

  /** One bracketed index `[i]` mangles to `_$i`. */
  lemma VarIdOfIndex(i: nat)
    ensures VarId("[" + NatToString(i) + "]") == "_$" + NatToString(i)
  {
    var d := NatToString(i);
    assert IntToString(i) == d;
    IntToStringAvoids(i, '[');
    IntToStringAvoids(i, ']');
    VarIdNoBrackets(d);
    VarIdConcat("[" + d, "]");
    VarIdConcat("[", d);
    assert VarId("[") == "_$";
    assert VarId("]") == "";
    assert "_$" + d + "" == "_$" + d;
  }

  /** The element names `_unpack` gives an array of signals mangle to
      `id_$i_$j…`: the bracketed index path becomes a `_$` path. */
  lemma VarIdOfUnpackedName(id: string, t: RType, e: (string, RType))
    requires Shaped(t) && e in Unpack(id, t)
    ensures exists idx: seq<nat> :: ValidIndex(idx, t) && e.1 == Peel(t, |idx|)
                                    && VarId(e.0) == VarId(id) + MangledSuffix(idx)
  {
    UnpackSound(id, t, e);
    var idx :| NamesPrefix(id, t, e, idx);
    VarIdConcat(id, Suffix(idx));
    VarIdSuffix(idx);
  }

  /** Distinct index paths of the same length mangle to distinct names. */
  lemma {:induction false} MangledSuffixInjective(a: seq<nat>, b: seq<nat>)
    requires |a| == |b| && MangledSuffix(a) == MangledSuffix(b)
    ensures a == b
    decreases |a|
  {
    if |a| > 0 {
      var da := NatToString(a[0]);
      var db := NatToString(b[0]);
      var ra := MangledSuffix(a[1..]);
      var rb := MangledSuffix(b[1..]);
      assert da == db && ra == rb by {
        assert MangledSuffix(a)[2..] == da + ra;
        assert MangledSuffix(b)[2..] == db + rb;
        MangledHead(a[1..]);
        MangledHead(b[1..]);
        DigitsPrefixEqual(da, ra, db, rb);
      }
      assert a[0] == b[0] by {
        NatToStringRoundTrip(a[0]);
        NatToStringRoundTrip(b[0]);
      }
      MangledSuffixInjective(a[1..], b[1..]);
      HeadTail(a);
      HeadTail(b);
    }
  }

  lemma MangledHead(idx: seq<nat>)
    ensures Delimited(MangledSuffix(idx))
  {
  }

  lemma DigitsPrefixEqual(x: string, rx: string, y: string, ry: string)
    requires AllDigits(x) && AllDigits(y) && Delimited(rx) && Delimited(ry)
    requires x + rx == y + ry
    ensures x == y && rx == ry
  {
    DigitRunConcat(x, rx);
    DigitRunConcat(y, ry);
    assert (x + rx)[|x|..] == rx;
    assert (y + ry)[|y|..] == ry;
  }

  //-----------------------------------------------------------------------
  // Examples
  //-----------------------------------------------------------------------

  /** The decimal renderings the examples below use. */
  lemma SmallNumbers()
    ensures IntToString(0) == "0" && IntToString(1) == "1" && IntToString(2) == "2"
    ensures IntToString(31) == "31" && IntToString(32) == "32"
  {
    assert NatToString(3) == "3";
  }

  /** The declaration of a two-element array of 32-bit output ports. */
  lemma PortArrayDeclExample(reserved: string -> bool)
    requires !reserved("out")
    ensures PortDecl("out", "output", UnpackedArrayType(Some(Array([2], Port("output", Vector(32), false), None, false))),
                     VectorDtype(32), reserved)
            == Success("output logic [31:0] out [0:1]")
  {
    TwoElementDims(Array([2], Port("output", Vector(32), false), None, false));
    Vector32Decl();
    PortArrayDeclText();
  }

  lemma TwoElementDims(t: RType)
    requires t.Array? && t.dimSizes == [2]
    ensures UnpackedArrayType(Some(t)).decl == " [0:1]"
  {
    SmallNumbers();
    assert DimsDecl("", [2]) == DimsDecl("" + DimPiece(2), []);
    assert DimPiece(2) == "[0:1]";
    assert "" + "[0:1]" == "[0:1]";
  }

  lemma Vector32Decl()
    ensures VectorDtype(32).decl == Template("logic [31:0] ", "")
  {
    SmallNumbers();
    assert "logic [" + "31" + ":0] " == "logic [31:0] ";
  }

  lemma PortArrayDeclText()
    ensures "output" + " " + ("logic [31:0] " + "out" + "") + " [0:1]" == "output logic [31:0] out [0:1]"
  {
  }

  /** A one-bit input port with no unpacked dimensions. */
  lemma ScalarPortDeclExample(reserved: string -> bool)
    requires !reserved("clk")
    ensures PortDecl("clk", "input", UnpackedArrayType(None), VectorDtype(1), reserved)
            == Success("input logic [0:0] clk")
  {
    Vector1Decl();
    ScalarPortDeclText();
  }

  lemma Vector1Decl()
    ensures VectorDtype(1).decl == Template("logic [0:0] ", "")
  {
    SmallNumbers();
    assert "logic [" + "0" + ":0] " == "logic [0:0] ";
  }

  lemma ScalarPortDeclText()
    ensures "input" + " " + ("logic [0:0] " + "clk" + "") + "" == "input logic [0:0] clk"
  {
  }

  /** The literal of a two-element constant array of Python ints; the
      list's extra entry is never read. */
  lemma ArrayParamExample()
    ensures GenArrayParam([2], PyList([PyInt(1), PyInt(2), PyInt(3)])) == Success("'{ 32'd1, 32'd2 }")
  {
    SmallNumbers();
    var items := [PyInt(1), PyInt(2), PyInt(3)];
    assert Literal(32, 1) == "32'd1";
    assert Literal(32, 2) == "32'd2";
    var first := "'{ " + "" + "32'd1";
    assert first == "'{ 32'd1";
    var second := first + ", " + "32'd2";
    assert second == "'{ 32'd1, 32'd2";
    assert GenElems([2], items, 2, second) == Success(second);
    assert GenElems([2], items, 1, first) == Success(second);
    assert GenElems([2], items, 0, "'{ ") == Success(second);
    assert second + " }" == "'{ 32'd1, 32'd2 }";
  }

  /** The connection line of a port driven from an interface field. */
  lemma ConnectionExample()
    ensures Connection("in_.foo", "out") == "assign out = in_.foo;"
    ensures ParseConnection("assign out = in_.foo;") == Some(("in_.foo", "out"))
  {
    ConnectionText();
    assert ' ' !in "out";
    ConnectionRoundTrip("in_.foo", "out");
  }

  lemma ConnectionText()
    ensures "assign " + "out" + " = " + "in_.foo" + ";" == "assign out = in_.foo;"
  {
  }

  lemma VarIdExampleText()
    ensures "out[0]" == "out" + ("[" + NatToString(0) + "]")
    ensures "out" + ("_$" + NatToString(0)) == "out_$0"
  {
    assert NatToString(0) == "0";
  }

  /** An element name of a port array, mangled. */
  lemma VarIdExample()
    ensures VarId("out[0]") == "out_$0"
  {
    var br := "[" + NatToString(0) + "]";
    VarIdExampleText();
    assert VarId("out") == "out" by {
      assert '[' !in "out" && ']' !in "out";
      VarIdNoBrackets("out");
    }
    VarIdOfIndex(0);
    VarIdConcat("out", br);
  }
}
