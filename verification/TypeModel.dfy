/** Types as they are declared and as they are elaborated, the graph of what they are made of, and
    what each declaration gives and has wrong with it. */
module TypeModel {

  type TypeId = nat

  /** Elaborated types. `kind` tells the atoms and vectors apart, `dims` counts the packed
      dimensions of a vector. */
  datatype NetType =
    | Vector(kind: nat, dims: nat)
    | Real
    | Text
    | Class(className: nat)
    | Struct(isPacked: bool, isUnion: bool, fields: seq<Field>)
    | PackedArray(ranges: seq<Range>, elem: NetType)
    | UnpackedArray(ranges: seq<Range>, elem: NetType)
    | DynamicArray(elem: NetType)
    | Queue(elem: NetType, maxIdx: int)
    | Enum(base: NetType)

  datatype Field = Field(name: nat, net: NetType)
  datatype Range = Range(l: int, r: int)

  /** An unpacked dimension: a range, `[]`, or `[$]` with or without a bound. */
  datatype Dim = Fixed(range: Range) | Open | Dollar(bounded: bool, bound: int)

  datatype Restriction = Any | EnumOnly | StructOnly | UnionOnly | ClassOnly

  datatype Declarator = Declarator(name: nat, hasDefault: bool, dims: seq<Dim>)
  datatype Member = Member(typ: TypeId, names: seq<Declarator>)

  /** A data type as parsed. `Simple` covers the atoms, vectors, reals, strings and classes. */
  datatype TypeDecl =
    | Simple(net: NetType)
    | StructDecl(packedFlag: bool, unionFlag: bool, softFlag: bool, members: seq<Member>)
    | PackedDecl(ranges: seq<Range>, base: TypeId)
    | ArrayDecl(unpacked: seq<Dim>, base: TypeId)
    | EnumDecl(base: TypeId)
    | RefDecl(typedef: Typedef)

  /** A type definition: perhaps only declared forward, perhaps not found from the scope. */
  datatype Typedef = Undefined | Unplaced | Defined(target: TypeId, restriction: Restriction)

  /** The errors reported, with the type and the name that they are about. */
  datatype Error =
    | Circular(t: TypeId)
    | EnumBase(t: TypeId)
    | ElementNotPacked(t: TypeId)
    | PackedDefault(t: TypeId, name: nat)
    | MemberNotPacked(t: TypeId, name: nat)
    | Unsupported(t: TypeId)
    | QueueBound(t: TypeId)
    | UndefinedType(t: TypeId)
    | NoTypeScope(t: TypeId)
    | ForwardMismatch(t: TypeId)

  const INTEGER_TYPE := Vector(0, 1)
  const LOGIC_TYPE := Vector(1, 0)

  predicate Packed(net: NetType) {
    net.Vector? || net.PackedArray? || net.Enum? || (net.Struct? && net.isPacked)
  }

  function SliceDims(net: NetType): nat {
    match net
    case Vector(_, dims) => dims
    case PackedArray(ranges, elem) => |ranges| + SliceDims(elem)
    case UnpackedArray(ranges, _) => |ranges|
    case Struct(isPacked, _, _) => if isPacked then 1 else 0
    case Enum(base) => SliceDims(base)
    case _ => 0
  }

  predicate Matches(restriction: Restriction, net: NetType) {
    match restriction
    case Any => true
    case EnumOnly => net.Enum?
    case StructOnly => net.Struct? && !net.isUnion
    case UnionOnly => net.Struct? && net.isUnion
    case ClassOnly => net.Class?
  }

  // ----- array dimensions

  /** The element type that a dynamic array or a queue gets. */
  function Supported(net: NetType): NetType {
    if net.Vector? || net.PackedArray? || net.Real? || net.Text? then net else LOGIC_TYPE
  }

  /** The pending ranges wrapped around a type. */
  function Static(net: NetType, pending: seq<Range>): NetType {
    if pending == [] then net
    else UnpackedArray(pending, if net.Queue? || net.DynamicArray? then LOGIC_TYPE else net)
  }

  /** The type of an object declared with these unpacked dimensions. */
  function ArrayType(net: NetType, pending: seq<Range>, dims: seq<Dim>): NetType
    decreases |dims|
  {
    if dims == [] then Static(net, pending)
    else
      match dims[0]
      case Fixed(range) => ArrayType(net, pending + [range], dims[1..])
      case Open => ArrayType(DynamicArray(Supported(Static(net, pending))), [], dims[1..])
      case Dollar(bounded, bound) =>
        ArrayType(Queue(Supported(Static(net, pending)), if bounded && bound >= 0 then bound else -1), [], dims[1..])
  }

  /** A reference for the same type, from the last dimension inwards. A range joins the ranges just
      before it; what cannot be an element, or be arrayed, is replaced by logic. */
  function Wrapped(base: NetType, dims: seq<Dim>): (r: NetType)
    ensures dims != [] && dims[|dims| - 1].Fixed? ==> r.UnpackedArray?
    decreases |dims|
  {
    if dims == [] then base
    else
      var k := |dims| - 1;
      var inner := Wrapped(base, dims[..k]);
      match dims[k]
      case Fixed(range) =>
        if k > 0 && dims[k - 1].Fixed? then UnpackedArray(inner.ranges + [range], inner.elem)
        else UnpackedArray([range], if inner.Queue? || inner.DynamicArray? then LOGIC_TYPE else inner)
      case Open => DynamicArray(Element(inner))
      case Dollar(bounded, bound) => Queue(Element(inner), if bounded && 0 <= bound then bound else -1)
  }

  /** Structs, classes, enumerations and arrays are not supported as elements. */
  function Element(net: NetType): NetType {
    match net
    case Class(_) => LOGIC_TYPE
    case Struct(_, _, _) => LOGIC_TYPE
    case Enum(_) => LOGIC_TYPE
    case UnpackedArray(_, _) => LOGIC_TYPE
    case DynamicArray(_) => LOGIC_TYPE
    case Queue(_, _) => LOGIC_TYPE
    case _ => net
  }

  /** The dimensions `done` have been worked in, the last ranges of them as `pending`. */
  ghost predicate WorkedIn(base: NetType, done: seq<Dim>, net: NetType, pending: seq<Range>) {
    && Static(net, pending) == Wrapped(base, done)
    && (pending != [] <==> done != [] && done[|done| - 1].Fixed?)
  }

  lemma {:induction false} ArrayIsWrapped(base: NetType, done: seq<Dim>, net: NetType, pending: seq<Range>,
                                          dims: seq<Dim>)
    requires WorkedIn(base, done, net, pending)
    ensures ArrayType(net, pending, dims) == Wrapped(base, done + dims)
    decreases |dims|
  {
    hide Wrapped;
    if dims == [] {
      assert done + dims == done;
    } else {
      var more := done + [dims[0]];
      assert more + dims[1..] == done + dims;
      DimWrapped(base, done, net, pending, dims[0]);
      match dims[0]
      case Fixed(range) => ArrayIsWrapped(base, more, net, pending + [range], dims[1..]);
      case Open => ArrayIsWrapped(base, more, DynamicArray(Supported(Static(net, pending))), [], dims[1..]);
      case Dollar(bounded, bound) =>
        ArrayIsWrapped(base, more, Queue(Supported(Static(net, pending)), if bounded && bound >= 0 then bound else -1),
                       [], dims[1..]);
    }
  }

  lemma DimWrapped(base: NetType, done: seq<Dim>, net: NetType, pending: seq<Range>, d: Dim)
    requires WorkedIn(base, done, net, pending)
    ensures d.Fixed? ==> WorkedIn(base, done + [d], net, pending + [d.range])
    ensures d.Open? ==> WorkedIn(base, done + [d], DynamicArray(Supported(Static(net, pending))), [])
    ensures d.Dollar? ==>
      WorkedIn(base, done + [d],
               Queue(Supported(Static(net, pending)), if d.bounded && d.bound >= 0 then d.bound else -1), [])
  {
    var more := done + [d];
    assert more[..|done|] == done && more[|done|] == d;
    assert done != [] ==> more[|done| - 1] == done[|done| - 1];
    var r := if d.Fixed? then d.range else Range(0, 0);
    assert pending == [] ==> pending + [r] == [r];
  }

  /** Ranges alone make one unpacked array of them all. */
  lemma {:induction false} RangesWrapped(base: NetType, dims: seq<Dim>)
    requires dims != [] && forall k | 0 <= k < |dims| :: dims[k].Fixed?
    ensures var r := Wrapped(base, dims);
      && r.UnpackedArray? && |r.ranges| == |dims| && (forall k | 0 <= k < |dims| :: r.ranges[k] == dims[k].range)
      && r.elem == if base.Queue? || base.DynamicArray? then LOGIC_TYPE else base
    decreases |dims|
  {
    var k := |dims| - 1;
    if k == 0 {
      assert dims[..0] == [];
    } else {
      RangesWrapped(base, dims[..k]);
    }
  }

  function Fields(net: NetType, names: seq<Declarator>): seq<Field> {
    if names == [] then []
    else
      var k := |names| - 1;
      Fields(net, names[..k]) + [Field(names[k].name, ArrayType(net, [], names[k].dims))]
  }

  // ----- the type graph

  type Types = map<TypeId, TypeDecl>

  function Bases(members: seq<Member>): seq<TypeId> {
    seq(|members|, i requires 0 <= i < |members| => members[i].typ)
  }

  /** The types that elaborating `decl` elaborates. */
  function Children(decl: TypeDecl): seq<TypeId> {
    match decl
    case Simple(_) => []
    case StructDecl(_, _, _, members) => Bases(members)
    case PackedDecl(_, base) => [base]
    case ArrayDecl(_, base) => [base]
    case EnumDecl(base) => [base]
    case RefDecl(typedef) => if typedef.Defined? then [typedef.target] else []
  }

  ghost predicate Closed(types: Types) {
    forall t | t in types :: forall c | c in Children(types[t]) :: c in types
  }

  predicate Step(types: Types, a: TypeId, b: TypeId) {
    a in types && b in Children(types[a])
  }

  ghost predicate Walk(types: Types, p: seq<TypeId>) {
    && p != []
    && forall i | 0 <= i < |p| - 1 :: Step(types, p[i], p[i + 1])
  }

  ghost predicate Repeats(p: seq<TypeId>) {
    exists i, j :: 0 <= i < j < |p| && p[i] == p[j]
  }

  /** Some way down from `root` comes back to a type that it has been through. */
  ghost predicate ReachesCycle(types: Types, root: TypeId) {
    exists p :: Walk(types, p) && p[0] == root && Repeats(p)
  }

  /** No way down from `t` is longer than `n`. */
  ghost predicate Bounded(types: Types, t: TypeId, n: nat)
    decreases n
  {
    t in types && n > 0 && forall c | c in Children(types[t]) :: Bounded(types, c, n - 1)
  }

  lemma {:induction false} BoundedAlong(types: Types, p: seq<TypeId>, n: nat)
    requires Walk(types, p) && Bounded(types, p[0], n)
    ensures |p| <= n && Bounded(types, p[|p| - 1], n - |p| + 1)
  {
    if |p| > 1 {
      assert Step(types, p[0], p[1]);
      var q := p[1..];
      forall i | 0 <= i < |q| - 1 ensures Step(types, q[i], q[i + 1]) {
        assert Step(types, p[i + 1], p[i + 2]);
      }
      BoundedAlong(types, q, n - 1);
    }
  }

  /** A type from which every way down ends reaches no cycle. */
  lemma {:induction false} BoundedNoCycle(types: Types, t: TypeId, n: nat)
    requires Bounded(types, t, n)
    ensures !ReachesCycle(types, t)
  {
    forall p | Walk(types, p) && p[0] == t ensures !Repeats(p) {
      forall i, j | 0 <= i < j < |p| ensures p[i] != p[j] {
        if p[i] == p[j] {
          WalkPart(types, p, 0, i);
          BoundedAlong(types, p[..i + 1], n);
          WalkPart(types, p, i, j);
          NoLoop(types, p[i..j + 1], n - i);
        }
      }
    }
  }

  lemma WalkPart(types: Types, p: seq<TypeId>, i: nat, j: nat)
    requires Walk(types, p) && i <= j < |p|
    ensures Walk(types, p[i..j + 1])
  {
    var q := p[i..j + 1];
    forall k | 0 <= k < |q| - 1 ensures Step(types, q[k], q[k + 1]) {
      assert Step(types, p[i + k], p[i + k + 1]);
    }
  }

  lemma {:induction false} NoLoop(types: Types, p: seq<TypeId>, n: nat)
    requires Walk(types, p) && |p| > 1 && p[0] == p[|p| - 1] && Bounded(types, p[0], n)
    ensures false
    decreases n
  {
    BoundedAlong(types, p, n);
    NoLoop(types, p, n - |p| + 1);
  }

  // ----- what a type denotes

  /** Elaboration without caching and without marks. */
  ghost function Denote(types: Types, t: TypeId, n: nat): NetType
    requires Bounded(types, t, n)
    decreases n, 0
  {
    match types[t]
    case Simple(net) => net
    case StructDecl(packedFlag, unionFlag, softFlag, members) =>
      MembersOf(types, t, n);
      Struct(packedFlag || (unionFlag && softFlag), unionFlag, DenoteMembers(types, members, n - 1))
    case PackedDecl(ranges, base) =>
      assert base in Children(types[t]);
      PackedArray(ranges, Denote(types, base, n - 1))
    case ArrayDecl(unpacked, base) =>
      assert base in Children(types[t]);
      ArrayType(Denote(types, base, n - 1), [], unpacked)
    case EnumDecl(base) =>
      assert base in Children(types[t]);
      Enum(Denote(types, base, n - 1))
    case RefDecl(typedef) =>
      if typedef.Defined? then
        assert typedef.target in Children(types[t]);
        Denote(types, typedef.target, n - 1)
      else INTEGER_TYPE
  }

  ghost predicate MembersBounded(types: Types, members: seq<Member>, n: nat) {
    forall i | 0 <= i < |members| :: Bounded(types, members[i].typ, n)
  }

  lemma MembersOf(types: Types, t: TypeId, n: nat)
    requires Bounded(types, t, n) && types[t].StructDecl?
    ensures MembersBounded(types, types[t].members, n - 1)
  {
    var members := types[t].members;
    forall i | 0 <= i < |members| ensures Bounded(types, members[i].typ, n - 1) {
      assert members[i].typ == Children(types[t])[i];
      assert members[i].typ in Children(types[t]);
    }
  }

  ghost function DenoteMembers(types: Types, members: seq<Member>, n: nat): seq<Field>
    requires MembersBounded(types, members, n)
    decreases n, 1, |members|
  {
    if members == [] then []
    else
      var k := |members| - 1;
      DenoteMembers(types, members[..k], n) + Fields(Denote(types, members[k].typ, n), members[k].names)
  }

  /** The bound does not matter. */
  lemma {:induction false} DenoteSame(types: Types, t: TypeId, n: nat, m: nat)
    requires Bounded(types, t, n) && n <= m
    ensures Bounded(types, t, m) && Denote(types, t, m) == Denote(types, t, n)
    decreases n, 0
  {
    forall c | c in Children(types[t])
      ensures Bounded(types, c, m - 1) && Denote(types, c, m - 1) == Denote(types, c, n - 1)
    {
      DenoteSame(types, c, n - 1, m - 1);
    }
    match types[t]
    case StructDecl(_, _, _, members) =>
      MembersOf(types, t, n);
      DenoteMembersSame(types, members, n - 1, m - 1);
    case PackedDecl(_, base) => assert base in Children(types[t]);
    case ArrayDecl(_, base) => assert base in Children(types[t]);
    case EnumDecl(base) => assert base in Children(types[t]);
    case RefDecl(typedef) => assert typedef.Defined? ==> typedef.target in Children(types[t]);
    case Simple(_) =>
  }

  lemma {:induction false} DenoteMembersSame(types: Types, members: seq<Member>, n: nat, m: nat)
    requires MembersBounded(types, members, n) && n <= m
    ensures MembersBounded(types, members, m) && DenoteMembers(types, members, m) == DenoteMembers(types, members, n)
    decreases n, 1, |members|
  {
    hide Denote, Bounded, Fields;
    if members != [] {
      var k := |members| - 1;
      DenoteMembersSame(types, members[..k], n, m);
      DenoteSame(types, members[k].typ, n, m);
    }
  }

  lemma DenoteUnique(types: Types, t: TypeId, n: nat, m: nat)
    requires Bounded(types, t, n) && Bounded(types, t, m)
    ensures Denote(types, t, n) == Denote(types, t, m)
  {
    DenoteSame(types, t, n, if n < m then m else n);
    DenoteSame(types, t, m, if n < m then m else n);
  }

  // ----- what is wrong with a type

  /** Errors in the dimensions of an object, reported for type `t`. */
  function StaticErrors(t: TypeId, net: NetType, pending: seq<Range>): set<Error> {
    if pending != [] && (net.Queue? || net.DynamicArray?) then {Unsupported(t)} else {}
  }

  function ElementErrors(t: TypeId, net: NetType): set<Error> {
    if Supported(net) == net then {} else {Unsupported(t)}
  }

  function ArrayErrors(t: TypeId, net: NetType, pending: seq<Range>, dims: seq<Dim>): set<Error>
    decreases |dims|
  {
    if dims == [] then StaticErrors(t, net, pending)
    else
      var elem := Static(net, pending);
      match dims[0]
      case Fixed(range) => ArrayErrors(t, net, pending + [range], dims[1..])
      case Open =>
        StaticErrors(t, net, pending) + ElementErrors(t, elem)
        + ArrayErrors(t, DynamicArray(Supported(elem)), [], dims[1..])
      case Dollar(bounded, bound) =>
        StaticErrors(t, net, pending) + ElementErrors(t, elem)
        + (if bounded && bound < 0 then {QueueBound(t)} else {})
        + ArrayErrors(t, Queue(Supported(elem), if bounded && bound >= 0 then bound else -1), [], dims[1..])
  }

  /** Ranges over a queue or a dynamic array, a `[]` or `[$]` over an element that is not supported,
      or a `[]` or `[$]` among several dimensions. */
  ghost predicate Mixed(base: NetType, dims: seq<Dim>) {
    && dims != []
    && (   (|dims| > 1 && HasOpen(dims))
        || (dims[0].Fixed? && (base.Queue? || base.DynamicArray?))
        || (!dims[0].Fixed? && Element(base) != base))
  }

  ghost predicate HasOpen(dims: seq<Dim>) {
    exists i :: 0 <= i < |dims| && !dims[i].Fixed?
  }

  ghost predicate BadBound(dims: seq<Dim>) {
    exists i :: 0 <= i < |dims| && dims[i].Dollar? && dims[i].bounded && dims[i].bound < 0
  }

  /** What is wrong with the dimensions of an object. */
  lemma {:induction false} ArrayErrorsIff(t: TypeId, net: NetType, pending: seq<Range>, dims: seq<Dim>)
    ensures forall e | e in ArrayErrors(t, net, pending, dims) :: e == Unsupported(t) || e == QueueBound(t)
    ensures QueueBound(t) in ArrayErrors(t, net, pending, dims) <==> BadBound(dims)
    ensures Unsupported(t) in ArrayErrors(t, net, pending, dims) <==>
      if pending == [] then Mixed(net, dims) else net.Queue? || net.DynamicArray? || HasOpen(dims)
    decreases |dims|
  {
    hide Mixed, HasOpen, BadBound;
    MixedFirst(net, dims);
    if dims != [] {
      var elem := Static(net, pending);
      match dims[0]
      case Fixed(range) => ArrayErrorsIff(t, net, pending + [range], dims[1..]);
      case Open =>
        ArrayErrorsIff(t, DynamicArray(Supported(elem)), [], dims[1..]);
        MixedFirst(DynamicArray(Supported(elem)), dims[1..]);
      case Dollar(bounded, bound) =>
        var queue := Queue(Supported(elem), if bounded && bound >= 0 then bound else -1);
        ArrayErrorsIff(t, queue, [], dims[1..]);
        MixedFirst(queue, dims[1..]);
    }
  }

  lemma MixedFirst(net: NetType, dims: seq<Dim>)
    ensures dims == [] ==> !Mixed(net, dims) && !HasOpen(dims) && !BadBound(dims)
    ensures dims != [] && dims[0].Fixed? ==>
      && (Mixed(net, dims) <==> net.Queue? || net.DynamicArray? || HasOpen(dims[1..]))
      && (HasOpen(dims) <==> HasOpen(dims[1..]))
    ensures dims != [] && !dims[0].Fixed? ==> HasOpen(dims) && (Mixed(net, dims) <==> |dims| > 1 || Element(net) != net)
    ensures dims != [] ==>
      (BadBound(dims) <==> BadBound(dims[1..]) || (dims[0].Dollar? && dims[0].bounded && dims[0].bound < 0))
    ensures dims != [] && (net.Queue? || net.DynamicArray?) ==> Mixed(net, dims)
  {
    if dims != [] {
      assert forall i | 1 <= i < |dims| :: dims[i] == dims[1..][i - 1];
    }
  }

  function NameErrors(t: TypeId, isPacked: bool, net: NetType, names: seq<Declarator>): set<Error> {
    if names == [] then {}
    else
      var d := names[|names| - 1];
      NameErrors(t, isPacked, net, names[..|names| - 1])
      + (if isPacked && d.hasDefault then {PackedDefault(t, d.name)} else {})
      + ArrayErrors(t, net, [], d.dims)
      + (if isPacked && !Packed(ArrayType(net, [], d.dims)) then {MemberNotPacked(t, d.name)} else {})
  }

  // ----- a reference: what a type is and what is wrong with it, from the types of its parts

  function NamesBefore(members: seq<Member>, i: nat): nat
    requires i <= |members|
  {
    if i == 0 then 0 else NamesBefore(members, i - 1) + |members[i - 1].names|
  }

  /** Field `at` is that of name `d`, of member type `net`. */
  predicate FieldIs(fields: seq<Field>, at: nat, net: NetType, d: Declarator) {
    at < |fields| && fields[at].name == d.name && fields[at].net == Wrapped(net, d.dims)
  }

  ghost predicate FieldsBuilt(members: seq<Member>, fields: seq<Field>, parts: seq<NetType>)
    requires |parts| == |members|
  {
    && |fields| == NamesBefore(members, |members|)
    && forall i, j | 0 <= i < |members| && 0 <= j < |members[i].names| ::
         FieldIs(fields, NamesBefore(members, i) + j, parts[i], members[i].names[j])
  }

  /** `net` is what a declaration gives when its parts are these. */
  ghost predicate Built(decl: TypeDecl, net: NetType, parts: seq<NetType>)
    requires |parts| == |Children(decl)|
  {
    match decl
    case Simple(n) => net == n
    case StructDecl(packedFlag, unionFlag, softFlag, members) =>
      && net.Struct? && net.isUnion == unionFlag && (net.isPacked <==> packedFlag || (unionFlag && softFlag))
      && FieldsBuilt(members, net.fields, parts)
    case PackedDecl(ranges, _) => net == PackedArray(ranges, parts[0])
    case ArrayDecl(unpacked, _) => net == Wrapped(parts[0], unpacked)
    case EnumDecl(_) => net == Enum(parts[0])
    case RefDecl(typedef) => net == if typedef.Defined? then parts[0] else INTEGER_TYPE
  }

  predicate NotPacked(net: NetType) {
    || net.Real? || net.Text? || net.Class? || net.UnpackedArray? || net.DynamicArray? || net.Queue?
    || (net.Struct? && !net.isPacked)
  }

  predicate NoDims(net: NetType) {
    match net
    case Vector(_, dims) => dims == 0
    case PackedArray(ranges, elem) => ranges == [] && NoDims(elem)
    case UnpackedArray(ranges, _) => ranges == []
    case Struct(isPacked, _, _) => !isPacked
    case Enum(base) => NoDims(base)
    case _ => true
  }

  predicate OneDim(net: NetType) {
    match net
    case Vector(_, dims) => dims <= 1
    case PackedArray(ranges, elem) => if ranges == [] then OneDim(elem) else |ranges| == 1 && NoDims(elem)
    case UnpackedArray(ranges, _) => |ranges| <= 1
    case Enum(base) => OneDim(base)
    case _ => true
  }

  predicate Declared(restriction: Restriction, net: NetType) {
    || restriction == Any
    || (net.Enum? && restriction == EnumOnly)
    || (net.Class? && restriction == ClassOnly)
    || (net.Struct? && restriction == if net.isUnion then UnionOnly else StructOnly)
  }

  /** `e` is an error about name `d` of a struct. */
  ghost predicate NameFault(t: TypeId, isPacked: bool, net: NetType, d: Declarator, e: Error) {
    || (e == Unsupported(t) && Mixed(net, d.dims))
    || (e == QueueBound(t) && BadBound(d.dims))
    || (e == PackedDefault(t, d.name) && isPacked && d.hasDefault)
    || (e == MemberNotPacked(t, d.name) && isPacked && NotPacked(Wrapped(net, d.dims)))
  }

  /** `e` is something wrong with type `t` itself, when its parts are these. */
  ghost predicate Fault(t: TypeId, decl: TypeDecl, parts: seq<NetType>, e: Error)
    requires |parts| == |Children(decl)|
  {
    match decl
    case Simple(_) => false
    case StructDecl(packedFlag, unionFlag, softFlag, members) =>
      MemberFault(t, packedFlag || (unionFlag && softFlag), members, parts, e)
    case PackedDecl(_, _) => e == ElementNotPacked(t) && NotPacked(parts[0])
    case ArrayDecl(unpacked, _) =>
      (e == Unsupported(t) && Mixed(parts[0], unpacked)) || (e == QueueBound(t) && BadBound(unpacked))
    case EnumDecl(_) =>
      e == EnumBase(t) && !((parts[0].Vector? || parts[0].PackedArray?) && OneDim(parts[0]))
    case RefDecl(typedef) =>
      match typedef
      case Undefined => e == UndefinedType(t)
      case Unplaced => e == NoTypeScope(t)
      case Defined(_, restriction) => e == ForwardMismatch(t) && !Declared(restriction, parts[0])
  }

  /** `e` is wrong with one of the members whose types are given. */
  ghost predicate MemberFault(t: TypeId, isPacked: bool, members: seq<Member>, parts: seq<NetType>, e: Error)
    requires |parts| <= |members|
  {
    exists i, j :: 0 <= i < |parts| && 0 <= j < |members[i].names|
      && NameFault(t, isPacked, parts[i], members[i].names[j], e)
  }

  /** What is wrong with a type is said of it, and is no circular definition. */
  lemma FaultOf(t: TypeId, decl: TypeDecl, parts: seq<NetType>, e: Error)
    requires |parts| == |Children(decl)| && Fault(t, decl, parts, e)
    ensures e.t == t && !e.Circular?
  {
    hide Mixed, BadBound, NotPacked, OneDim;
  }

  lemma MatchesDeclared(restriction: Restriction, net: NetType)
    ensures Matches(restriction, net) <==> Declared(restriction, net)
  {
  }

  lemma {:induction false} DimsCounted(net: NetType)
    ensures SliceDims(net) == 0 <==> NoDims(net)
    ensures SliceDims(net) <= 1 <==> OneDim(net)
  {
    match net
    case PackedArray(_, elem) => DimsCounted(elem);
    case Enum(base) => DimsCounted(base);
    case _ =>
  }

  lemma {:induction false} FieldsOf(net: NetType, names: seq<Declarator>)
    ensures |Fields(net, names)| == |names|
    ensures forall j | 0 <= j < |names| :: FieldIs(Fields(net, names), j, net, names[j])
  {
    hide ArrayType, Wrapped;
    if names != [] {
      var k := |names| - 1;
      FieldsOf(net, names[..k]);
      assert Static(net, []) == net && WorkedIn(net, [], net, []) by { NothingWrapped(net); }
      ArrayIsWrapped(net, [], net, [], names[k].dims);
      assert [] + names[k].dims == names[k].dims;
      forall j | 0 <= j < k ensures FieldIs(Fields(net, names), j, net, names[j]) {
        assert FieldIs(Fields(net, names[..k]), j, net, names[..k][j]);
      }
    }
  }

  lemma NothingWrapped(net: NetType)
    ensures WorkedIn(net, [], net, [])
  {
  }

  lemma {:induction false} MembersBuilt(types: Types, members: seq<Member>, n: nat, parts: seq<NetType>)
    requires MembersBounded(types, members, n) && |parts| == |members|
    requires forall i | 0 <= i < |members| :: parts[i] == Denote(types, members[i].typ, n)
    ensures FieldsBuilt(members, DenoteMembers(types, members, n), parts)
    decreases |members|
  {
    hide Denote, Fields, Wrapped, FieldIs;
    if members != [] {
      var k := |members| - 1;
      MembersBuilt(types, members[..k], n, parts[..k]);
      FieldsOf(parts[k], members[k].names);
      FieldsNext(members, k, DenoteMembers(types, members[..k], n), Fields(parts[k], members[k].names), parts);
      assert members[..k + 1] == members && parts[..k + 1] == parts;
    }
  }

  /** The fields of one more member. */
  lemma FieldsNext(members: seq<Member>, n: nat, fields: seq<Field>, named: seq<Field>, parts: seq<NetType>)
    requires n < |members| && n < |parts|
    requires FieldsBuilt(members[..n], fields, parts[..n]) && |named| == |members[n].names|
    requires forall j | 0 <= j < |named| :: FieldIs(named, j, parts[n], members[n].names[j])
    ensures FieldsBuilt(members[..n + 1], fields + named, parts[..n + 1])
  {
    hide FieldIs;
    var more := members[..n + 1];
    NamesSame(members, n, n);
    NamesSame(members, n + 1, n);
    assert more[n] == members[n];
    forall i, j | 0 <= i < |more| && 0 <= j < |more[i].names|
      ensures FieldIs(fields + named, NamesBefore(more, i) + j, parts[..n + 1][i], more[i].names[j])
    {
      NamesSame(members, n, i);
      NamesSame(members, n + 1, i);
      if i < n {
        assert members[..n][i] == more[i] == members[i] && parts[..n][i] == parts[i];
        FieldKept(fields, named, NamesBefore(more, i) + j, parts[i], more[i].names[j]);
      } else {
        FieldLater(fields, named, j, parts[i], more[i].names[j]);
      }
    }
  }

  lemma FieldKept(a: seq<Field>, b: seq<Field>, at: nat, net: NetType, d: Declarator)
    requires FieldIs(a, at, net, d)
    ensures FieldIs(a + b, at, net, d)
  {
  }

  lemma FieldLater(a: seq<Field>, b: seq<Field>, at: nat, net: NetType, d: Declarator)
    requires FieldIs(b, at, net, d)
    ensures FieldIs(a + b, |a| + at, net, d)
  {
  }

  lemma {:induction false} NamesSame(members: seq<Member>, k: nat, i: nat)
    requires i <= k <= |members|
    ensures NamesBefore(members[..k], i) == NamesBefore(members, i)
  {
    if i > 0 {
      NamesSame(members, k, i - 1);
    }
  }

  /** What a type denotes is what its declaration builds from what its parts denote. */
  lemma DenoteBuilt(types: Types, t: TypeId, n: nat, parts: seq<NetType>)
    requires Bounded(types, t, n) && |parts| == |Children(types[t])|
    requires forall k | 0 <= k < |parts| ::
               Bounded(types, Children(types[t])[k], n - 1) && parts[k] == Denote(types, Children(types[t])[k], n - 1)
    ensures Built(types[t], Denote(types, t, n), parts)
  {
    match types[t]
    case StructDecl(_, _, _, members) =>
      hide FieldsBuilt, ArrayType, Wrapped;
      MembersOf(types, t, n);
      assert forall i | 0 <= i < |members| :: members[i].typ == Children(types[t])[i];
      MembersBuilt(types, members, n - 1, parts);
    case ArrayDecl(unpacked, base) =>
      hide ArrayType, Wrapped;
      assert base == Children(types[t])[0];
      NothingWrapped(parts[0]);
      ArrayIsWrapped(parts[0], [], parts[0], [], unpacked);
      assert [] + unpacked == unpacked;
    case PackedDecl(_, base) => assert base == Children(types[t])[0];
    case EnumDecl(base) => assert base == Children(types[t])[0];
    case RefDecl(typedef) => assert typedef.Defined? ==> typedef.target == Children(types[t])[0];
    case Simple(_) =>
  }

  lemma {:induction false} NameFaults(t: TypeId, isPacked: bool, net: NetType, names: seq<Declarator>, e: Error)
    ensures e in NameErrors(t, isPacked, net, names) <==>
      exists j :: 0 <= j < |names| && NameFault(t, isPacked, net, names[j], e)
  {
    hide ArrayType, ArrayErrors, Wrapped, Mixed, BadBound, Packed, NotPacked;
    if names != [] {
      var k := |names| - 1;
      NameFaults(t, isPacked, net, names[..k], e);
      OneNameFault(t, isPacked, net, names[k], e);
      assert forall j | 0 <= j < k :: names[..k][j] == names[j];
    }
  }

  lemma OneNameFault(t: TypeId, isPacked: bool, net: NetType, d: Declarator, e: Error)
    ensures NameFault(t, isPacked, net, d, e) <==>
      || e in (if isPacked && d.hasDefault then {PackedDefault(t, d.name)} else {})
      || e in ArrayErrors(t, net, [], d.dims)
      || e in (if isPacked && !Packed(ArrayType(net, [], d.dims)) then {MemberNotPacked(t, d.name)} else {})
  {
    hide ArrayType, ArrayErrors, Wrapped, Mixed, BadBound;
    ArrayErrorsIff(t, net, [], d.dims);
    NothingWrapped(net);
    ArrayIsWrapped(net, [], net, [], d.dims);
    assert [] + d.dims == d.dims;
  }
}
