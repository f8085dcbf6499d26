/** A design netlist as the optimizer sees it: nexuses (sets of connected nets)
    and the nodes that drive and read them. Its meaning is the set of consistent
    zero-delay valuations, in which every nexus carries the resolution of what
    drives it; the netlist may contain cycles. */
module Netlists {
  import opened FourState

  type NodeId = nat
  type NexusId = nat

  /** Variables, supplies and pulled nets have output links; plain wires are passive. */
  datatype NetKind = PlainWire | Variable | Supply(one: bool) | Tri(one: bool)

  datatype Port = NotAPort | Input | Output | Inout

  datatype Net = Net(width: nat, isBool: bool, kind: NetKind, local: bool,
                     erefs: nat, lrefs: nat, port: Port, inRoot: bool)

  datatype Nexus = Nexus(nets: seq<Net>, tran: bool)

  datatype Node =
    | Const(value: Vec, out: NexusId)
    | Concat(width: nat, transparent: bool, ins: seq<NexusId>, out: NexusId)
    | Mux(width: nat, selWidth: nat, sel: NexusId, data: seq<NexusId>, out: NexusId)
    | Bufz(width: nat, inp: NexusId, out: NexusId)
      // dir PV: `part` is driven into bits [base, base + width) of `vec`; dir VP: the reverse
    | Select(dir: Dir, base: nat, width: nat, part: NexusId, vec: NexusId)
    | Gate(ins: seq<NexusId>, out: NexusId)

  datatype Dir = PV | VP

  /** The node list is circular; its last element is the list's anchor. */
  datatype Netlist = Netlist(order: seq<NodeId>, nodes: map<NodeId, Node>, nexa: map<NexusId, Nexus>)

  function Out(node: Node): NexusId {
    match node
    case Select(PV, _, _, _, vec) => vec
    case Select(VP, _, _, part, _) => part
    case _ => node.out
  }

  function Ins(node: Node): seq<NexusId> {
    match node
    case Const(_, _) => []
    case Concat(_, _, ins, _) => ins
    case Mux(_, _, sel, data, _) => [sel] + data
    case Bufz(_, inp, _) => [inp]
    case Select(PV, _, _, part, _) => [part]
    case Select(VP, _, _, _, vec) => [vec]
    case Gate(ins, _) => ins
  }

  // ----- nets and nexuses

  /** The vector width of a nexus is that of its first net. */
  function Width(nx: Nexus): nat {
    if nx.nets == [] then 0 else nx.nets[0].width
  }

  predicate TwoState(nx: Nexus) {
    exists i | 0 <= i < |nx.nets| :: nx.nets[i].isBool
  }

  /** A passive net of a root module that the outside world may drive. */
  predicate RootInput(net: Net) {
    net.kind.PlainWire? && net.inRoot && net.port != NotAPort && net.port != Output
  }

  predicate MakesVariable(net: Net) {
    net.lrefs > 0 || net.kind.Variable? || RootInput(net)
  }

  /** Something other than a node may drive the nexus: a procedural assignment,
      a variable, a bidirectional switch or the world outside the root module. */
  predicate External(nx: Nexus) {
    nx.tran || exists i | 0 <= i < |nx.nets| :: MakesVariable(nx.nets[i])
  }

  function Level(one: bool): V4 {
    if one then V1 else V0
  }

  predicate IsPull(net: Net) {
    net.kind.Supply? || net.kind.Tri?
  }

  ghost function Supplies(nx: Nexus): set<V4> {
    set i | 0 <= i < |nx.nets| && nx.nets[i].kind.Supply? :: Level(nx.nets[i].kind.one)
  }

  ghost function Pulls(nx: Nexus): set<V4> {
    set i | 0 <= i < |nx.nets| && nx.nets[i].kind.Tri? :: Level(nx.nets[i].kind.one)
  }

  /** The value of one bit of a nexus, given what its drivers resolve to: a supply
      wins, a pull replaces only a floating bit, and a 2-state net holds 0 or 1. */
  ghost function Settle(nx: Nexus, driven: V4): V4 {
    var bit := if Supplies(nx) != {} then Resolve(Supplies(nx))
               else if driven == Vz then Resolve(Pulls(nx)) else driven;
    if TwoState(nx) then ToTwoState(bit) else bit
  }

  // ----- what nodes drive

  /** How every other device behaves: `gate` is what an opaque node drives for given
      inputs, `outside` what reaches a nexus from outside the node list. */
  datatype Env = Env(gate: (NodeId, seq<Vec>) -> Vec, outside: NexusId -> Vec)

  type Valuation = map<NexusId, Vec>

  function BitAt(v: Vec, b: int): V4 {
    if 0 <= b < |v| then v[b] else Vz
  }

  function Get(v: Valuation, n: NexusId): Vec {
    if n in v then v[n] else []
  }

  function Reads(v: Valuation, ins: seq<NexusId>): seq<Vec> {
    if ins == [] then [] else [Get(v, ins[0])] + Reads(v, ins[1..])
  }

  /** A concatenation puts its first input at the least significant end. */
  function Join(parts: seq<Vec>): Vec {
    if parts == [] then [] else parts[0] + Join(parts[1..])
  }

  function MuxBit(sel: V4, a0: V4, a1: V4): V4 {
    if sel == V1 then a1 else if sel == V0 then a0 else if a0 == a1 then a0 else Vx
  }

  ghost function OutBit(env: Env, id: NodeId, node: Node, v: Valuation, b: nat): V4 {
    match node
    case Const(value, _) => BitAt(value, b)
    case Concat(_, _, ins, _) => BitAt(Join(Reads(v, ins)), b)
    case Mux(_, selWidth, sel, data, _) =>
      if |data| == 2 && selWidth == 1
      then MuxBit(BitAt(Get(v, sel), 0), BitAt(Get(v, data[0]), b), BitAt(Get(v, data[1]), b))
      else BitAt(env.gate(id, Reads(v, [sel] + data)), b)
    case Bufz(_, inp, _) => BitAt(Get(v, inp), b)
    case Select(PV, base, width, part, _) =>
      if base <= b < base + width then BitAt(Get(v, part), b - base) else Vz
    case Select(VP, base, width, _, vec) =>
      if b >= width then Vz
      else if base + b < |Get(v, vec)| then BitAt(Get(v, vec), base + b) else Vx
    case Gate(ins, _) => BitAt(env.gate(id, Reads(v, ins)), b)
  }

  // ----- consistent valuations

  ghost function NodeBits(nl: Netlist, env: Env, v: Valuation, n: NexusId, b: nat): set<V4> {
    set id | id in nl.nodes && Out(nl.nodes[id]) == n :: OutBit(env, id, nl.nodes[id], v, b)
  }

  ghost function OutsideBits(nx: Nexus, env: Env, n: NexusId, b: nat): set<V4> {
    if External(nx) then {BitAt(env.outside(n), b)} else {}
  }

  ghost function NexusBit(nl: Netlist, env: Env, v: Valuation, n: NexusId, b: nat): V4
    requires n in nl.nexa
  {
    Settle(nl.nexa[n], Resolve(NodeBits(nl, env, v, n, b) + OutsideBits(nl.nexa[n], env, n, b)))
  }

  ghost predicate SettledAt(nl: Netlist, env: Env, v: Valuation, n: NexusId)
    requires n in nl.nexa
  {
    && n in v
    && |v[n]| == Width(nl.nexa[n])
    && forall b | 0 <= b < |v[n]| :: v[n][b] == NexusBit(nl, env, v, n, b)
  }

  ghost predicate Consistent(nl: Netlist, env: Env, v: Valuation) {
    v.Keys == nl.nexa.Keys && forall n | n in nl.nexa :: SettledAt(nl, env, v, n)
  }

  ghost function Meaning(nl: Netlist, env: Env): Valuation -> bool {
    v => Consistent(nl, env, v)
  }

  /** On one valuation: `q` accepts it, extended by `fills`, exactly when `p` does, and
      accepts no other extension. */
  ghost predicate Agree(keys: set<NexusId>, fills: Valuation, p: Valuation -> bool, q: Valuation -> bool,
                        v: Valuation) {
    && (v.Keys == keys ==> (p(v) <==> q(v + fills)))
    && (q(v) ==> v.Keys == keys + fills.Keys && forall k | k in fills :: v[k] == fills[k])
  }

  ghost predicate ExtendsBy(keys: set<NexusId>, fills: Valuation, p: Valuation -> bool, q: Valuation -> bool) {
    forall v :: Agree(keys, fills, p, q, v)
  }

  /** `nl'` has the valuations of `nl`, whatever the opaque devices do. The nexuses that
      `nl'` adds carry the constants `fills` and so extend each valuation uniquely. */
  ghost predicate SameMeaning(nl: Netlist, nl': Netlist, fills: Valuation) {
    && fills.Keys !! nl.nexa.Keys
    && nl'.nexa.Keys == nl.nexa.Keys + fills.Keys
    && (forall n | n in nl.nexa :: nl'.nexa[n] == nl.nexa[n])
    && forall env: Env :: ExtendsBy(nl.nexa.Keys, fills, Meaning(nl, env), Meaning(nl', env))
  }

  lemma SameMeaningRefl(nl: Netlist)
    ensures SameMeaning(nl, nl, map[])
  {
    SameMeaningReordered(nl, nl);
  }

  lemma SameMeaningTrans(a: Netlist, b: Netlist, c: Netlist, f: Valuation, g: Valuation)
    requires SameMeaning(a, b, f) && SameMeaning(b, c, g)
    ensures SameMeaning(a, c, f + g)
  {
    forall env: Env
      ensures ExtendsBy(a.nexa.Keys, f + g, Meaning(a, env), Meaning(c, env))
    {
      ExtendsTrans(a.nexa.Keys, f, g, Meaning(a, env), Meaning(b, env), Meaning(c, env));
    }
  }

  lemma ExtendsTrans(keys: set<NexusId>, f: Valuation, g: Valuation,
                     p: Valuation -> bool, q: Valuation -> bool, r: Valuation -> bool)
    requires f.Keys !! keys && g.Keys !! keys + f.Keys
    requires ExtendsBy(keys, f, p, q) && ExtendsBy(keys + f.Keys, g, q, r)
    ensures ExtendsBy(keys, f + g, p, r)
  {
    forall v: Valuation ensures Agree(keys, f + g, p, r, v) {
      if v.Keys == keys {
        assert Agree(keys, f, p, q, v) && Agree(keys + f.Keys, g, q, r, v + f);
        assert v + (f + g) == (v + f) + g;
      }
      if r(v) {
        assert Agree(keys + f.Keys, g, q, r, v);
        var w := map n | n in keys + f.Keys :: v[n];
        assert w + g == v;
        assert Agree(keys + f.Keys, g, q, r, w) && Agree(keys, f, p, q, w);
      }
    }
  }

  /** The order of the node list means nothing. */
  lemma SameMeaningReordered(nl: Netlist, nl': Netlist)
    requires nl'.nodes == nl.nodes && nl'.nexa == nl.nexa
    ensures SameMeaning(nl, nl', map[])
  {
    forall env: Env, v: Valuation
      ensures Agree(nl.nexa.Keys, map[], Meaning(nl, env), Meaning(nl', env), v)
    {
      assert v + map[] == v;
      assert forall n, b: nat | n in nl.nexa ::
        NexusBit(nl, env, v, n, b) == NexusBit(nl', env, v, n, b);
      assert forall n | n in nl.nexa :: SettledAt(nl, env, v, n) <==> SettledAt(nl', env, v, n);
    }
  }

  // ----- what elaboration guarantees of a netlist

  ghost function SumWidths(nexa: map<NexusId, Nexus>, ins: seq<NexusId>): nat
    requires forall n | n in ins :: n in nexa
  {
    if ins == [] then 0 else Width(nexa[ins[0]]) + SumWidths(nexa, ins[1..])
  }

  ghost predicate NodeOk(nexa: map<NexusId, Nexus>, node: Node) {
    && Out(node) in nexa
    && (forall n | n in Ins(node) :: n in nexa)
    && match node
       case Const(value, out) => |value| == Width(nexa[out])
       case Concat(width, _, ins, out) => SumWidths(nexa, ins) <= width == Width(nexa[out])
       case Select(PV, _, width, part, _) => width == Width(nexa[part])
       case _ => true
  }

  ghost predicate NexusOk(nx: Nexus) {
    && nx.nets != []
    && forall i | 0 <= i < |nx.nets| :: nx.nets[i].width == nx.nets[0].width >= 1
  }

  ghost predicate NoDuplicates<T>(s: seq<T>) {
    forall i, j | 0 <= i < j < |s| :: s[i] != s[j]
  }

  predicate Listed(nl: Netlist) {
    forall id | id in nl.order :: id in nl.nodes
  }

  ghost predicate Wellformed(nl: Netlist) {
    && NoDuplicates(nl.order)
    && Listed(nl)
    && (forall id | id in nl.nodes :: id in nl.order)
    && (forall n | n in nl.nexa :: NexusOk(nl.nexa[n]))
    && (forall id | id in nl.nodes :: NodeOk(nl.nexa, nl.nodes[id]))
  }

  lemma WellformedListed(nl: Netlist)
    requires Wellformed(nl)
    ensures Listed(nl)
  {
  }

  lemma {:induction false} ReadsLookup(v: Valuation, ins: seq<NexusId>)
    ensures |Reads(v, ins)| == |ins|
    ensures forall i | 0 <= i < |ins| :: Reads(v, ins)[i] == Get(v, ins[i])
  {
    if ins != [] {
      ReadsLookup(v, ins[1..]);
    }
  }

  /** What a node drives depends on the nexuses it reads and on nothing else. */
  lemma OutBitReads(env: Env, id: NodeId, node: Node, v: Valuation, w: Valuation, b: nat)
    requires forall n | n in Ins(node) :: Get(v, n) == Get(w, n)
    ensures OutBit(env, id, node, v, b) == OutBit(env, id, node, w, b)
  {
    ReadsLookup(v, Ins(node));
    ReadsLookup(w, Ins(node));
    assert Reads(v, Ins(node)) == Reads(w, Ins(node));
    match node
    case Mux(_, _, sel, data, _) =>
      assert [sel] + data == Ins(node) && Ins(node)[0] == sel;
      if |data| == 2 {
        assert Ins(node)[1] == data[0] && Ins(node)[2] == data[1];
      }
    case Bufz(_, inp, _) => assert Ins(node)[0] == inp;
    case Select(PV, _, _, part, _) => assert Ins(node)[0] == part;
    case Select(VP, _, _, _, vec) => assert Ins(node)[0] == vec;
    case _ =>
  }
}
