/** What a nexus with constant drivers carries, and the two rules that use it: a
    concatenation of constants becomes a constant, and a two-way mux with a constant
    select becomes a buffer. */
module ConstantRules {
  import opened FourState
  import opened Netlists
  import opened Rewriting

  // ----- constant nexuses

  function PullCount(nets: seq<Net>): nat {
    if nets == [] then 0 else (if IsPull(nets[0]) then 1 else 0) + PullCount(nets[1..])
  }

  /** The level of the first pulled or supplied net, floating if there is none. */
  function PullLevel(nets: seq<Net>): V4 {
    if nets == [] then Vz
    else if IsPull(nets[0]) then Level(nets[0].kind.one)
    else PullLevel(nets[1..])
  }

  /** Nothing but at most one constant or pull determines the nexus. */
  predicate DriversConstant(nl: Netlist, n: NexusId)
    requires n in nl.nexa && Listed(nl)
  {
    var drivers := Drivers(nl.nodes, nl.order, n);
    && !External(nl.nexa[n])
    && (forall id | id in drivers :: nl.nodes[id].Const?)
    && |drivers| + PullCount(nl.nexa[n].nets) <= 1
  }

  /** The vector such a nexus is driven with. */
  function DrivenVector(nl: Netlist, n: NexusId): (r: Vec)
    requires n in nl.nexa && Listed(nl) && DriversConstant(nl, n)
  {
    var drivers := Drivers(nl.nodes, nl.order, n);
    if drivers != [] then nl.nodes[drivers[0]].value
    else Fill(PullLevel(nl.nexa[n].nets), Width(nl.nexa[n]))
  }

  ghost predicate OnlyPull(nets: seq<Net>, i: nat) {
    && i < |nets| && IsPull(nets[i])
    && PullLevel(nets) == Level(nets[i].kind.one)
    && forall j | 0 <= j < |nets| && IsPull(nets[j]) :: j == i
  }

  lemma {:induction false} PullsCounted(nets: seq<Net>)
    ensures PullCount(nets) == 0 <==> forall i | 0 <= i < |nets| :: !IsPull(nets[i])
    ensures PullCount(nets) == 0 ==> PullLevel(nets) == Vz
    ensures PullCount(nets) == 1 ==> exists i: nat :: OnlyPull(nets, i)
  {
    if nets != [] {
      var rest := nets[1..];
      PullsCounted(rest);
      assert forall i | 1 <= i < |nets| :: nets[i] == rest[i - 1];
      if IsPull(nets[0]) && PullCount(nets) == 1 {
        assert OnlyPull(nets, 0);
      } else if PullCount(nets) == 1 {
        var i: nat :| OnlyPull(rest, i);
        assert OnlyPull(nets, i + 1);
      }
    }
  }

  lemma PullsSettle(nx: Nexus)
    requires PullCount(nx.nets) <= 1
    ensures PullCount(nx.nets) == 0 ==> Supplies(nx) == {} && Pulls(nx) == {}
    ensures PullCount(nx.nets) == 1 ==>
      var p := {PullLevel(nx.nets)};
      (Supplies(nx) == p && Pulls(nx) == {}) || (Supplies(nx) == {} && Pulls(nx) == p)
  {
    PullsCounted(nx.nets);
    if PullCount(nx.nets) == 1 {
      var nets := nx.nets;
      var i: nat :| OnlyPull(nets, i);
      if nets[i].kind.Supply? {
        assert Level(nets[i].kind.one) in Supplies(nx);
      } else {
        assert Level(nets[i].kind.one) in Pulls(nx);
      }
    }
  }

  lemma NodeBitsOfDrivers(nl: Netlist, env: Env, v: Valuation, n: NexusId, b: nat)
    requires Wellformed(nl)
    ensures var drivers := Drivers(nl.nodes, nl.order, n);
      && (forall id | id in drivers :: id in nl.nodes)
      && NodeBits(nl, env, v, n, b) == set id | id in drivers :: OutBit(env, id, nl.nodes[id], v, b)
  {
    DriversAre(nl.nodes, nl.order, n);
  }

  lemma DrivenWidth(nl: Netlist, n: NexusId)
    requires Wellformed(nl) && n in nl.nexa && DriversConstant(nl, n)
    ensures |DrivenVector(nl, n)| == Width(nl.nexa[n])
  {
    var drivers := Drivers(nl.nodes, nl.order, n);
    if drivers != [] {
      assert drivers[0] in drivers;
      assert NodeOk(nl.nexa, nl.nodes[drivers[0]]);
    }
  }

  /** What a 2-state nexus makes of a driven bit. */
  function Held(nx: Nexus, bit: V4): V4 {
    if TwoState(nx) then ToTwoState(bit) else bit
  }

  lemma SettleOneSource(nx: Nexus, driven: V4)
    ensures PullCount(nx.nets) == 0 ==> Settle(nx, driven) == Held(nx, driven)
    ensures PullCount(nx.nets) == 1 && driven == Vz ==> Settle(nx, driven) == Held(nx, PullLevel(nx.nets))
  {
    if PullCount(nx.nets) <= 1 {
      PullsSettle(nx);
    }
  }

  lemma DrivenBits(nl: Netlist, env: Env, v: Valuation, n: NexusId, b: nat)
    requires Wellformed(nl) && n in nl.nexa && DriversConstant(nl, n) && b < |DrivenVector(nl, n)|
    ensures NodeBits(nl, env, v, n, b) ==
      if Drivers(nl.nodes, nl.order, n) == [] then {} else {DrivenVector(nl, n)[b]}
  {
    var drivers := Drivers(nl.nodes, nl.order, n);
    NodeBitsOfDrivers(nl, env, v, n, b);
    if drivers != [] {
      OneDriver(drivers);
      assert OutBit(env, drivers[0], nl.nodes[drivers[0]], v, b) == DrivenVector(nl, n)[b];
    }
  }

  lemma DrivenBit(nl: Netlist, env: Env, v: Valuation, n: NexusId, b: nat)
    requires Wellformed(nl) && n in nl.nexa && DriversConstant(nl, n)
    requires b < Width(nl.nexa[n]) == |DrivenVector(nl, n)|
    ensures NexusBit(nl, env, v, n, b) == Held(nl.nexa[n], DrivenVector(nl, n)[b])
  {
    hide Wellformed, Settle;
    WellformedListed(nl);
    var nx, bits, bit := nl.nexa[n], NodeBits(nl, env, v, n, b), DrivenVector(nl, n)[b];
    DrivenBits(nl, env, v, n, b);
    assert NexusBit(nl, env, v, n, b) == Settle(nx, Resolve(bits)) by {
      assert bits + OutsideBits(nx, env, n, b) == bits;
    }
    SettleOneSource(nx, Resolve(bits));
    if bits != {} {
      assert Resolve({bit}) == bit;
    } else {
      PullsCounted(nx.nets);
    }
  }

  lemma OneDriver(drivers: seq<NodeId>)
    requires |drivers| == 1
    ensures forall id :: id in drivers <==> id == drivers[0]
  {
  }

  /** A nexus with constant drivers settles to its driven vector, except that a 2-state
      net turns unknown and floating bits of it into 0. */
  lemma DrivenSettles(nl: Netlist, env: Env, v: Valuation, n: NexusId)
    requires Wellformed(nl) && n in nl.nexa && DriversConstant(nl, n)
    ensures |DrivenVector(nl, n)| == Width(nl.nexa[n])
    ensures SettledAt(nl, env, v, n) <==>
      n in v && |v[n]| == Width(nl.nexa[n]) &&
      forall b | 0 <= b < |v[n]| :: v[n][b] == Held(nl.nexa[n], DrivenVector(nl, n)[b])
  {
    DrivenWidth(nl, n);
    forall b: nat | b < Width(nl.nexa[n])
      ensures NexusBit(nl, env, v, n, b) == Held(nl.nexa[n], DrivenVector(nl, n)[b])
    {
      DrivenBit(nl, env, v, n, b);
    }
  }

  // ----- concatenations of constants

  predicate AllConstant(nl: Netlist, ins: seq<NexusId>)
    requires Listed(nl)
  {
    forall n | n in ins :: n in nl.nexa && DriversConstant(nl, n)
  }

  function DrivenVectors(nl: Netlist, ins: seq<NexusId>): seq<Vec>
    requires Listed(nl) && AllConstant(nl, ins)
  {
    if ins == [] then [] else [DrivenVector(nl, ins[0])] + DrivenVectors(nl, ins[1..])
  }

  /** The inputs end to end, and floating bits where they do not reach. */
  function Folded(nl: Netlist, node: Node): Vec
    requires node.Concat? && Listed(nl) && AllConstant(nl, node.ins)
  {
    var joined := Join(DrivenVectors(nl, node.ins));
    joined + Fill(Vz, if |joined| <= node.width then node.width - |joined| else 0)
  }

  predicate CanFold(nl: Netlist, id: NodeId)
    requires Listed(nl)
  {
    && id in nl.nodes && nl.nodes[id].Concat? && !nl.nodes[id].transparent
    && AllConstant(nl, nl.nodes[id].ins)
  }

  lemma {:induction false} JoinedWidth(nl: Netlist, ins: seq<NexusId>)
    requires Wellformed(nl) && AllConstant(nl, ins)
    ensures |Join(DrivenVectors(nl, ins))| == SumWidths(nl.nexa, ins)
  {
    if ins != [] {
      DrivenSettles(nl, Env((_, _) => [], _ => []), map[], ins[0]);
      JoinedWidth(nl, ins[1..]);
    }
  }

  /** No input is a 2-state net that carries an unknown or floating constant. */
  predicate FoldsExactly(nl: Netlist, ins: seq<NexusId>)
    requires Listed(nl) && AllConstant(nl, ins)
  {
    forall n | n in ins :: TwoState(nl.nexa[n]) ==> IsDefined(DrivenVector(nl, n))
  }

  lemma {:induction false} ExactInputs(nl: Netlist, ins: seq<NexusId>, env: Env, v: Valuation)
    requires Wellformed(nl) && AllConstant(nl, ins) && FoldsExactly(nl, ins)
    requires forall n | n in ins :: SettledAt(nl, env, v, n)
    ensures Reads(v, ins) == DrivenVectors(nl, ins)
  {
    if ins != [] {
      DrivenSettles(nl, env, v, ins[0]);
      assert ins[0] in ins;
      assert v[ins[0]] == DrivenVector(nl, ins[0]);
      ExactInputs(nl, ins[1..], env, v);
    }
  }

  lemma {:induction false} JoinInjective(p: seq<Vec>, q: seq<Vec>)
    requires |p| == |q| && forall i | 0 <= i < |p| :: |p[i]| == |q[i]|
    requires Join(p) == Join(q)
    ensures p == q
  {
    if p != [] {
      assert p[0] == Join(p)[..|p[0]|] == Join(q)[..|q[0]|] == q[0];
      assert Join(p[1..]) == Join(p)[|p[0]|..] == Join(q)[|q[0]|..] == Join(q[1..]);
      JoinInjective(p[1..], q[1..]);
      assert p == [p[0]] + p[1..] && q == [q[0]] + q[1..];
    }
  }

  lemma {:induction false} DrivenVectorsAt(nl: Netlist, ins: seq<NexusId>)
    requires Wellformed(nl) && AllConstant(nl, ins)
    ensures |DrivenVectors(nl, ins)| == |ins|
    ensures forall i | 0 <= i < |ins| :: DrivenVectors(nl, ins)[i] == DrivenVector(nl, ins[i])
  {
    hide Wellformed, DriversConstant, DrivenVector;
    WellformedListed(nl);
    if ins != [] {
      DrivenVectorsAt(nl, ins[1..]);
    }
  }

  /** On one valuation: if the inputs are settled, the concatenation drives the folded value. */
  ghost predicate FoldAgrees(nl: Netlist, ins: seq<NexusId>, env: Env, v: Valuation)
    requires Wellformed(nl) && AllConstant(nl, ins)
  {
    (forall n | n in ins :: SettledAt(nl, env, v, n)) ==> Join(Reads(v, ins)) == Join(DrivenVectors(nl, ins))
  }

  /** The folded value is what the concatenation drives, whatever the rest of the design
      does, exactly when no 2-state input carries an unknown or floating constant. */
  lemma FoldExactIff(nl: Netlist, ins: seq<NexusId>)
    requires Wellformed(nl) && AllConstant(nl, ins)
    ensures FoldsExactly(nl, ins) <==> forall env: Env, v: Valuation :: FoldAgrees(nl, ins, env, v)
  {
    if FoldsExactly(nl, ins) {
      forall env: Env, v: Valuation ensures FoldAgrees(nl, ins, env, v) {
        if forall n | n in ins :: SettledAt(nl, env, v, n) {
          ExactInputs(nl, ins, env, v);
        }
      }
    } else {
      var env := Env((_, _) => [], _ => []);
      var v := ConstantValuation(nl, ins, env);
      InexactFold(nl, ins, env, v);
      assert !FoldAgrees(nl, ins, env, v);
    }
  }

  lemma InexactFold(nl: Netlist, ins: seq<NexusId>, env: Env, v: Valuation)
    requires Wellformed(nl) && AllConstant(nl, ins) && !FoldsExactly(nl, ins)
    requires forall n | n in ins :: SettledAt(nl, env, v, n)
    ensures Join(Reads(v, ins)) != Join(DrivenVectors(nl, ins))
  {
    hide Wellformed, DrivenVector, DriversConstant, Join;
    WellformedListed(nl);
    var given, driven := Reads(v, ins), DrivenVectors(nl, ins);
    ReadsLookup(v, ins);
    DrivenVectorsAt(nl, ins);
    forall j | 0 <= j < |ins| ensures |given[j]| == |driven[j]| {
      DrivenSettles(nl, env, v, ins[j]);
    }
    var n :| n in ins && TwoState(nl.nexa[n]) && !IsDefined(DrivenVector(nl, n));
    var i :| 0 <= i < |ins| && ins[i] == n;
    DrivenSettles(nl, env, v, n);
    assert IsDefined(given[i]) && !IsDefined(driven[i]);
    if Join(given) == Join(driven) {
      JoinInjective(given, driven);
    }
  }

  lemma ConstantValuation(nl: Netlist, ins: seq<NexusId>, env: Env) returns (v: Valuation)
    requires Wellformed(nl) && AllConstant(nl, ins)
    ensures forall n | n in ins :: SettledAt(nl, env, v, n)
  {
    v := map n | n in nl.nexa && n in ins :: HeldVector(nl.nexa[n], DrivenVector(nl, n));
    forall n | n in ins ensures SettledAt(nl, env, v, n) {
      DrivenSettles(nl, env, v, n);
    }
  }

  function HeldVector(nx: Nexus, c: Vec): (r: Vec)
    ensures |r| == |c| && forall i | 0 <= i < |c| :: r[i] == Held(nx, c[i])
  {
    seq(|c|, i requires 0 <= i < |c| => Held(nx, c[i]))
  }

  function Without(ids: seq<NodeId>, id: NodeId): seq<NodeId> {
    if ids == [] then []
    else if ids[0] == id then ids[1..]
    else [ids[0]] + Without(ids[1..], id)
  }

  lemma {:induction false} WithoutKeepsRest(ids: seq<NodeId>, id: NodeId)
    requires NoDuplicates(ids)
    ensures forall m :: m in Without(ids, id) <==> m in ids && m != id
    ensures NoDuplicates(Without(ids, id))
    ensures |Without(ids, id)| == |ids| - if id in ids then 1 else 0
  {
    if ids != [] {
      var rest := ids[1..];
      assert NoDuplicates(rest) && ids[0] !in rest;
      if ids[0] != id {
        WithoutKeepsRest(rest, id);
        assert ids[0] !in Without(rest, id);
      }
    }
  }

  function WithNode(nl: Netlist, id: NodeId, node: Node): Netlist {
    Netlist(nl.order + [id], nl.nodes[id := node], nl.nexa)
  }

  function WithoutNode(nl: Netlist, id: NodeId): Netlist {
    Netlist(Without(nl.order, id), nl.nodes - {id}, nl.nexa)
  }

  lemma WithNodeWellformed(nl: Netlist, id: NodeId, node: Node)
    requires Wellformed(nl) && id !in nl.nodes && NodeOk(nl.nexa, node)
    ensures Wellformed(WithNode(nl, id, node))
  {
    assert id !in nl.order;
  }

  lemma WithoutNodeWellformed(nl: Netlist, id: NodeId)
    requires Wellformed(nl)
    ensures Wellformed(WithoutNode(nl, id))
  {
    WithoutKeepsRest(nl.order, id);
  }

  /** Node `id` gives way to node `id'`, listed last. */
  function Replaced(nl: Netlist, id: NodeId, id': NodeId, node: Node): Netlist {
    WithNode(WithoutNode(nl, id), id', node)
  }

  lemma ReplacedWellformed(nl: Netlist, id: NodeId, id': NodeId, node: Node)
    requires Wellformed(nl) && id in nl.nodes && id' !in nl.nodes && NodeOk(nl.nexa, node)
    ensures Wellformed(Replaced(nl, id, id', node))
  {
    WithoutNodeWellformed(nl, id);
    WithNodeWellformed(WithoutNode(nl, id), id', node);
  }

  /** One node may replace another that drives the same nexus if, whenever the rest of the
      netlist is settled, the two drive the same bits. */
  lemma ReplaceNode(nl: Netlist, id: NodeId, id': NodeId, node: Node)
    requires Wellformed(nl) && id in nl.nodes && id' !in nl.nodes && NodeOk(nl.nexa, node)
    requires Out(node) == Out(nl.nodes[id])
    requires forall env: Env, v: Valuation, b: nat {:trigger OutBit(env, id', node, v, b)}
      | SettledElsewhere(nl, env, v, Out(node)) :: OutBit(env, id', node, v, b) == OutBit(env, id, nl.nodes[id], v, b)
    ensures Wellformed(Replaced(nl, id, id', node))
    ensures SameMeaning(nl, Replaced(nl, id, id', node), map[])
  {
    var nl', n := Replaced(nl, id, id', node), Out(node);
    ReplacedWellformed(nl, id, id', node);
    forall env: Env, v: Valuation ensures SameDrive(nl, nl', n, env, v) {
      if SettledElsewhere(nl, env, v, n) {
        forall b: nat ensures NexusBit(nl, env, v, n, b) == NexusBit(nl', env, v, n, b) {
          assert OutBit(env, id', node, v, b) == OutBit(env, id, nl.nodes[id], v, b);
          ReplacedBits(nl, id, id', node, env, v, b);
        }
      }
    }
    SwapDrivers(nl, nl', n);
  }

  lemma ReplacedBits(nl: Netlist, id: NodeId, id': NodeId, node: Node, env: Env, v: Valuation, b: nat)
    requires id in nl.nodes && id' !in nl.nodes && Out(node) == Out(nl.nodes[id])
    requires OutBit(env, id', node, v, b) == OutBit(env, id, nl.nodes[id], v, b)
    ensures NodeBits(nl, env, v, Out(node), b) == NodeBits(Replaced(nl, id, id', node), env, v, Out(node), b)
  {
    var nl', n := Replaced(nl, id, id', node), Out(node);
    forall x | x in NodeBits(nl, env, v, n, b) ensures x in NodeBits(nl', env, v, n, b) {
      var m :| m in nl.nodes && Out(nl.nodes[m]) == n && x == OutBit(env, m, nl.nodes[m], v, b);
      var m' := if m == id then id' else m;
      assert m' in nl'.nodes && Out(nl'.nodes[m']) == n && x == OutBit(env, m', nl'.nodes[m'], v, b);
    }
    forall x | x in NodeBits(nl', env, v, n, b) ensures x in NodeBits(nl, env, v, n, b) {
      var m :| m in nl'.nodes && Out(nl'.nodes[m]) == n && x == OutBit(env, m, nl'.nodes[m], v, b);
      var m' := if m == id' then id else m;
      assert m' in nl.nodes && Out(nl.nodes[m']) == n && x == OutBit(env, m', nl.nodes[m'], v, b);
    }
  }

  /** Folding a concatenation keeps every consistent valuation and adds none. */
  lemma FoldKeepsMeaning(nl: Netlist, id: NodeId, id': NodeId)
    requires Wellformed(nl) && CanFold(nl, id) && id' !in nl.nodes
    requires FoldsExactly(nl, nl.nodes[id].ins)
    ensures var node := nl.nodes[id];
      var nl' := Replaced(nl, id, id', Const(Folded(nl, node), node.out));
      Wellformed(nl') && SameMeaning(nl, nl', map[])
  {
    var node := nl.nodes[id];
    var folded := Const(Folded(nl, node), node.out);
    JoinedWidth(nl, node.ins);
    assert NodeOk(nl.nexa, node);
    assert node.out !in node.ins by {
      DriversAre(nl.nodes, nl.order, node.out);
    }
    forall env: Env, v: Valuation, b: nat | SettledElsewhere(nl, env, v, node.out)
      ensures OutBit(env, id', folded, v, b) == OutBit(env, id, node, v, b)
    {
      ExactInputs(nl, node.ins, env, v);
    }
    ReplaceNode(nl, id, id', folded);
  }

  // ----- muxes with a constant select

  /** The first driven bit, as the select of a one-bit mux reads it. */
  function SelectValue(nl: Netlist, n: NexusId): V4
    requires n in nl.nexa && Listed(nl) && DriversConstant(nl, n)
  {
    BitAt(DrivenVector(nl, n), 0)
  }

  predicate CanBypass(nl: Netlist, id: NodeId)
    requires Listed(nl)
  {
    && id in nl.nodes && nl.nodes[id].Mux?
    && |nl.nodes[id].data| == 2 && nl.nodes[id].selWidth == 1
    && nl.nodes[id].sel in nl.nexa && DriversConstant(nl, nl.nodes[id].sel)
    && SelectValue(nl, nl.nodes[id].sel) !in {Vx, Vz}
  }

  /** The buffer that replaces such a mux. */
  function Bypass(nl: Netlist, id: NodeId): Node
    requires Listed(nl) && CanBypass(nl, id)
  {
    var node := nl.nodes[id];
    Bufz(node.width, node.data[if SelectValue(nl, node.sel) == V1 then 1 else 0], node.out)
  }

  /** Replacing a mux whose select is constant keeps the meaning, 2-state select or not. */
  lemma BypassKeepsMeaning(nl: Netlist, id: NodeId, id': NodeId)
    requires Wellformed(nl) && CanBypass(nl, id) && id' !in nl.nodes
    ensures var nl' := Replaced(nl, id, id', Bypass(nl, id));
      Wellformed(nl') && SameMeaning(nl, nl', map[])
  {
    var node, buffer := nl.nodes[id], Bypass(nl, id);
    BypassOk(nl, id);
    forall env: Env, v: Valuation, b: nat | SettledElsewhere(nl, env, v, node.out)
      ensures OutBit(env, id', buffer, v, b) == OutBit(env, id, node, v, b)
    {
      DrivenSettles(nl, env, v, node.sel);
      assert SettledAt(nl, env, v, node.sel);
      SelectWidth(nl, node.sel);
      assert BitAt(Get(v, node.sel), 0) == SelectValue(nl, node.sel);
    }
    ReplaceNode(nl, id, id', buffer);
  }

  lemma SelectWidth(nl: Netlist, n: NexusId)
    requires Wellformed(nl) && n in nl.nexa
    ensures Width(nl.nexa[n]) >= 1
  {
    assert NexusOk(nl.nexa[n]);
  }

  lemma BypassOk(nl: Netlist, id: NodeId)
    requires Wellformed(nl) && CanBypass(nl, id)
    ensures NodeOk(nl.nexa, Bypass(nl, id))
    ensures nl.nodes[id].out in nl.nexa && nl.nodes[id].out != nl.nodes[id].sel
  {
    var node := nl.nodes[id];
    assert NodeOk(nl.nexa, node);
    assert forall k | k in node.data :: k in Ins(node);
    DriversAre(nl.nodes, nl.order, node.out);
  }
}
