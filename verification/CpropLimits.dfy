/** Inexact steps change what a netlist means: whenever their effect can be seen at the nexus
    concerned, and in the smallest cases. */
module CpropLimits {
  import opened FourState
  import opened Netlists
  import opened Rewriting
  import opened ConstantRules
  import opened FusionRule

  // ----- whenever the effect can be seen

  /** Node `id` alone determines the nexus, which is a plain 4-state one. */
  ghost predicate Determines(nl: Netlist, id: NodeId, n: NexusId) {
    && n in nl.nexa && !TwoState(nl.nexa[n]) && !External(nl.nexa[n])
    && Supplies(nl.nexa[n]) == {} && Pulls(nl.nexa[n]) == {}
    && forall m :: m in nl.nodes && Out(nl.nodes[m]) == n <==> m == id
  }

  lemma DeterminedBit(nl: Netlist, id: NodeId, n: NexusId, env: Env, v: Valuation, b: nat)
    requires Determines(nl, id, n)
    ensures id in nl.nodes && NexusBit(nl, env, v, n, b) == OutBit(env, id, nl.nodes[id], v, b)
  {
    hide OutBit, TwoState, External;
    var bit := OutBit(env, id, nl.nodes[id], v, b);
    OnlyDriver(nl, id, env, v, n, b);
    assert {bit} + {} == {bit};
    assert Resolve({bit}) == bit;
  }

  lemma {:induction false} JoinSameWidths(p: seq<Vec>, q: seq<Vec>)
    requires |p| == |q| && forall i | 0 <= i < |p| :: |p[i]| == |q[i]|
    ensures |Join(p)| == |Join(q)|
  {
    if p != [] {
      JoinSameWidths(p[1..], q[1..]);
    }
  }

  lemma ReplacedDetermines(nl: Netlist, id: NodeId, id': NodeId, node: Node)
    requires id in nl.nodes && id' !in nl.nodes && Out(node) == Out(nl.nodes[id]) && Determines(nl, id, Out(node))
    ensures Determines(Replaced(nl, id, id', node), id', Out(node))
  {
    hide Without, TwoState, External, Supplies, Pulls;
    var nl' := Replaced(nl, id, id', node);
    assert nl'.nodes[id'] == node;
  }

  /** A concatenation that alone determines a plain nexus may be folded if and only if the fold
      is exact, provided that the netlist has any consistent valuation at all. */
  lemma FoldMeaningIff(nl: Netlist, id: NodeId, id': NodeId, env: Env, v: Valuation)
    requires Wellformed(nl) && CanFold(nl, id) && id' !in nl.nodes && Determines(nl, id, nl.nodes[id].out)
    requires Consistent(nl, env, v)
    ensures SameMeaning(nl, Replaced(nl, id, id', Const(Folded(nl, nl.nodes[id]), nl.nodes[id].out)), map[])
       <==> FoldsExactly(nl, nl.nodes[id].ins)
  {
    hide SameMeaning, Consistent, Folded, DriversConstant, Determines, Replaced;
    WellformedListed(nl);
    var folded := Const(Folded(nl, nl.nodes[id]), nl.nodes[id].out);
    if FoldsExactly(nl, nl.nodes[id].ins) {
      FoldKeepsMeaning(nl, id, id');
    } else {
      FoldSeen(nl, id, id', env, v);
      assert v + map[] == v;
      ReplacedNexa(nl, id, id', folded);
      Tells(nl, Replaced(nl, id, id', folded), map[], env, v);
    }
  }

  lemma ReplacedNexa(nl: Netlist, id: NodeId, id': NodeId, node: Node)
    ensures Replaced(nl, id, id', node).nexa == nl.nexa
  {
  }

  /** A valuation that only one of two netlists accepts tells them apart. */
  lemma Tells(nl: Netlist, nl': Netlist, fills: Valuation, env: Env, v: Valuation)
    requires Consistent(nl, env, v) && !Consistent(nl', env, v + fills)
    ensures !SameMeaning(nl, nl', fills)
  {
    assert v.Keys == nl.nexa.Keys;
    hide Consistent;
    assert !Agree(nl.nexa.Keys, fills, Meaning(nl, env), Meaning(nl', env), v);
  }

  lemma FoldSeen(nl: Netlist, id: NodeId, id': NodeId, env: Env, v: Valuation)
    requires Wellformed(nl) && CanFold(nl, id) && id' !in nl.nodes && Determines(nl, id, nl.nodes[id].out)
    requires Consistent(nl, env, v) && !FoldsExactly(nl, nl.nodes[id].ins)
    ensures !Consistent(Replaced(nl, id, id', Const(Folded(nl, nl.nodes[id]), nl.nodes[id].out)), env, v)
  {
    hide Folded, DriversConstant, DrivenVector, Determines, Replaced, FoldsExactly, SettledAt;
    WellformedListed(nl);
    var node, n := nl.nodes[id], nl.nodes[id].out;
    var folded := Const(Folded(nl, node), n);
    var nl' := Replaced(nl, id, id', folded);
    var b := DifferingBit(nl, id, env, v);
    ReplacedDetermines(nl, id, id', folded);
    ReplacedNode(nl, id, id', folded);
    DeterminedBit(nl, id, n, env, v, b);
    DeterminedBit(nl', id', n, env, v, b);
    if Consistent(nl', env, v) {
      SettledBit(nl, env, v, n, b);
      SettledBit(nl', env, v, n, b);
    }
  }

  lemma ReplacedNode(nl: Netlist, id: NodeId, id': NodeId, node: Node)
    ensures id' in Replaced(nl, id, id', node).nodes && Replaced(nl, id, id', node).nodes[id'] == node
    ensures Replaced(nl, id, id', node).nexa == nl.nexa
  {
  }

  lemma SettledBit(nl: Netlist, env: Env, v: Valuation, n: NexusId, b: nat)
    requires n in nl.nexa && Consistent(nl, env, v) && b < Width(nl.nexa[n])
    ensures n in v && |v[n]| == Width(nl.nexa[n]) && v[n][b] == NexusBit(nl, env, v, n, b)
  {
    assert SettledAt(nl, env, v, n);
  }

  /** A bit at which an inexact fold and the concatenation differ. */
  lemma DifferingBit(nl: Netlist, id: NodeId, env: Env, v: Valuation) returns (b: nat)
    requires Wellformed(nl) && CanFold(nl, id) && nl.nodes[id].out in nl.nexa
    requires Consistent(nl, env, v) && !FoldsExactly(nl, nl.nodes[id].ins)
    ensures b < Width(nl.nexa[nl.nodes[id].out])
    ensures forall id' ::
      OutBit(env, id', Const(Folded(nl, nl.nodes[id]), nl.nodes[id].out), v, b) != OutBit(env, id, nl.nodes[id], v, b)
  {
    hide DriversConstant, DrivenVector, FoldsExactly, Join, SettledAt;
    WellformedListed(nl);
    var node := nl.nodes[id];
    assert NodeOk(nl.nexa, node);
    InexactFold(nl, node.ins, env, v);
    JoinedWidth(nl, node.ins);
    var given, driven := Reads(v, node.ins), DrivenVectors(nl, node.ins);
    ReadsLookup(v, node.ins);
    DrivenVectorsAt(nl, node.ins);
    forall i | 0 <= i < |given| ensures |given[i]| == |driven[i]| {
      DrivenSettles(nl, env, v, node.ins[i]);
      assert SettledAt(nl, env, v, node.ins[i]);
      SettledWidth(nl, env, v, node.ins[i]);
    }
    JoinSameWidths(given, driven);
    b :| 0 <= b < |Join(given)| && Join(given)[b] != Join(driven)[b];
  }

  lemma SettledWidth(nl: Netlist, env: Env, v: Valuation, n: NexusId)
    requires n in nl.nexa && SettledAt(nl, env, v, n)
    ensures n in v && |v[n]| == Width(nl.nexa[n])
  {
  }

  /** A fusion that fills a gap of an externally driven 2-state nexus changes the meaning as soon
      as the outside drives 1 there in some consistent valuation. */
  lemma HarmfulFusionSeen(nl: Netlist, nl': Netlist, n: NexusId, ids: seq<NodeId>, next: NexusId, cid: NodeId,
                          env: Env, v: Valuation, b: nat)
    requires Wellformed(nl) && Fuses(nl, nl', n, ids, next, cid) && Consistent(nl, env, v)
    requires TwoState(nl.nexa[n]) && External(nl.nexa[n]) && b < Width(nl.nexa[n])
    requires !Covered(NodesOf(nl.nodes, ids), b) && BitAt(env.outside(n), b) == V1
    ensures !SameMeaning(nl, nl', map[])
  {
    hide Consistent, Covered, External, TwoState, Wellformed, SameMeaning, Fuses, SettledElsewhere;
    FusesParts(nl, nl', n, ids, next, cid);
    ElsewhereToo(nl, env, v, n);
    SettledBit(nl, env, v, n, b);
    HarmfulGap(nl, n, ids, env, v, b);
    ConcatSettles(nl, nl', n, ids, next, cid, env, v, b);
    if Consistent(nl', env, v) {
      SettledBit(nl', env, v, n, b);
    }
    assert v + map[] == v;
    Tells(nl, nl', map[], env, v);
  }

  lemma FusesParts(nl: Netlist, nl': Netlist, n: NexusId, ids: seq<NodeId>, next: NexusId, cid: NodeId)
    requires Fuses(nl, nl', n, ids, next, cid)
    ensures DrivenByParts(nl, n, ids) && Tiled(NodesOf(nl.nodes, ids), 0, Width(nl.nexa[n])) && nl'.nexa == nl.nexa
  {
  }

  lemma ElsewhereToo(nl: Netlist, env: Env, v: Valuation, n: NexusId)
    requires Consistent(nl, env, v) && n in nl.nexa
    ensures SettledElsewhere(nl, env, v, n)
  {
    assert SettledAt(nl, env, v, n);
  }

  // ----- the smallest cases

  const ANY: Env := Env((_, _) => [], _ => [Vz, V1])

  function Wire1(isBool: bool): Nexus {
    Nexus([Net(1, isBool, PlainWire, true, 0, 0, NotAPort, false)], false)
  }

  // ----- a concatenation that reads an undriven 2-state net

  const UNDRIVEN := Netlist([0], map[0 := Concat(1, false, [0], 1)], map[0 := Wire1(true), 1 := Wire1(false)])

  /** The net carries 0 and so does the concatenation, but the constant that replaces it is
      high impedance. */
  lemma FoldChangesMeaning()
    ensures Wellformed(UNDRIVEN) && CanFold(UNDRIVEN, 0)
    ensures var folded := Replaced(UNDRIVEN, 0, 1, Const(Folded(UNDRIVEN, UNDRIVEN.nodes[0]), 1));
      !SameMeaning(UNDRIVEN, folded, map[])
  {
    hide Consistent, SameMeaning, Folded, Replaced, CanFold, Wellformed;
    UndrivenOk();
    FoldedValue();
    var folded := Replaced(UNDRIVEN, 0, 1, Const([Vz], 1));
    UndrivenFolded(folded);
    var v: Valuation := map[0 := [V0], 1 := [V0]];
    BeforeFold(v);
    AfterFold(folded, v);
    assert v + map[] == v;
    Tells(UNDRIVEN, folded, map[], ANY, v);
  }

  lemma UndrivenFolded(folded: Netlist)
    requires folded == Replaced(UNDRIVEN, 0, 1, Const([Vz], 1))
    ensures folded.nodes == map[1 := Const([Vz], 1)] && folded.nexa == UNDRIVEN.nexa
  {
  }

  lemma AfterFold(folded: Netlist, v: Valuation)
    requires folded.nodes == map[1 := Const([Vz], 1)] && folded.nexa == UNDRIVEN.nexa
    requires v == map[0 := [V0], 1 := [V0]]
    ensures !Consistent(folded, ANY, v)
  {
    assert OutBit(ANY, 1, folded.nodes[1], v, 0) == Vz;
    assert NodeBits(folded, ANY, v, 1, 0) == {Vz};
    assert {Vz} + {} == {Vz};
    assert v[1][0] != NexusBit(folded, ANY, v, 1, 0);
    assert !SettledAt(folded, ANY, v, 1);
  }

  lemma UndrivenOk()
    ensures Wellformed(UNDRIVEN) && CanFold(UNDRIVEN, 0)
  {
    var concat := UNDRIVEN.nodes[0];
    assert SumWidths(UNDRIVEN.nexa, [0]) == 1 + SumWidths(UNDRIVEN.nexa, []) by { assert [0][1..] == []; }
    assert NodeOk(UNDRIVEN.nexa, concat);
    assert Drivers(UNDRIVEN.nodes, [0], 0) == [] by { assert [0][1..] == []; }
    assert PullCount(Wire1(true).nets) == 0;
    assert DriversConstant(UNDRIVEN, 0);
  }

  lemma FoldedValue()
    requires CanFold(UNDRIVEN, 0)
    ensures Folded(UNDRIVEN, UNDRIVEN.nodes[0]) == [Vz]
  {
    assert Drivers(UNDRIVEN.nodes, [0], 0) == [] by { assert [0][1..] == []; }
    assert DrivenVector(UNDRIVEN, 0) == [Vz];
    assert DrivenVectors(UNDRIVEN, [0]) == [[Vz]] by { assert [0][1..] == []; }
    assert Join([[Vz]]) == [Vz] by { assert [[Vz]][1..] == []; }
  }

  lemma BeforeFold(v: Valuation)
    requires v == map[0 := [V0], 1 := [V0]]
    ensures Consistent(UNDRIVEN, ANY, v)
  {
    var nl := UNDRIVEN;
    assert NodeBits(nl, ANY, v, 0, 0) == {};
    var nx := nl.nexa[0];
    assert nx.nets[0].isBool && Supplies(nx) == {} && Pulls(nx) == {};
    assert Reads(v, [0]) == [[V0]] by { assert [0][1..] == []; }
    assert Join([[V0]]) == [V0] by { assert [[V0]][1..] == []; }
    assert OutBit(ANY, 0, nl.nodes[0], v, 0) == V0;
    assert NodeBits(nl, ANY, v, 1, 0) == {V0};
    assert {V0} + {} == {V0};
    assert SettledAt(nl, ANY, v, 0);
    assert SettledAt(nl, ANY, v, 1);
  }

  // ----- a gap in a 2-state variable

  const GAPPED := Netlist([0, 1],
    map[0 := Const([V1], 1), 1 := Select(PV, 0, 1, 1, 0)],
    map[0 := Nexus([Net(2, true, PlainWire, false, 0, 1, NotAPort, false)], false), 1 := Wire1(false)])

  /** The netlist after the one part select and a zero for the gap became a concatenation. */
  const FILLED := Netlist([0, 2, 3],
    map[0 := Const([V1], 1), 2 := Const([V0], 2), 3 := Concat(2, false, [1, 2], 0)],
    GAPPED.nexa[2 := FillNexus(1, false)])

  /** A procedural assignment puts 1 in the bit that no part drives; the zero that the fusion
      adds there turns it into a conflict, and so into 0. */
  lemma FusionChangesMeaning()
    ensures DrivenByParts(GAPPED, 0, [1])
    ensures Fuses(WithConst(GAPPED, 2, 2, [V0], false), FILLED, 0, [1], 2, 3)
    ensures !SameMeaning(GAPPED, FILLED, map[2 := [V0]])
  {
    hide Consistent, SameMeaning, Fuses, DrivenByParts;
    GappedParts();
    var v: Valuation := map[0 := [V1, V1], 1 := [V1]];
    BeforeFusion(v);
    AfterFusion(v + map[2 := [V0]]);
    Tells(GAPPED, FILLED, map[2 := [V0]], ANY, v);
  }

  lemma AfterFusion(w: Valuation)
    requires w == map[0 := [V1, V1], 1 := [V1], 2 := [V0]]
    ensures !Consistent(FILLED, ANY, w)
  {
    var nl := FILLED;
    var nx := nl.nexa[0];
    assert nl.nodes[3] == Concat(2, false, [1, 2], 0);
    FilledReads(w);
    assert OutBit(ANY, 3, nl.nodes[3], w, 1) == V0;
    assert NodeBits(nl, ANY, w, 0, 1) == {V0};
    assert nx.nets[0].isBool && MakesVariable(nx.nets[0]);
    assert OutsideBits(nx, ANY, 0, 1) == {V1};
    assert V0 in {V0} + {V1} && V1 in {V0} + {V1};
    assert Resolve({V0} + {V1}) == Vx;
    assert Supplies(nx) == {} && Pulls(nx) == {};
    assert w[0][1] != NexusBit(nl, ANY, w, 0, 1);
    assert !SettledAt(nl, ANY, w, 0);
  }

  lemma FilledReads(w: Valuation)
    requires w == map[0 := [V1, V1], 1 := [V1], 2 := [V0]]
    ensures Join(Reads(w, [1, 2])) == [V1, V0]
  {
    ReadsLookup(w, [1, 2]);
    assert Reads(w, [1, 2]) == [[V1], [V0]];
    assert [[V1], [V0]][1..] == [[V0]] && [[V0]][1..] == [];
  }

  lemma GappedParts()
    ensures DrivenByParts(GAPPED, 0, [1])
    ensures Fuses(WithConst(GAPPED, 2, 2, [V0], false), FILLED, 0, [1], 2, 3)
  {
    hide Tiled, GapFills, Pins, FillsHeld;
    var mid, part := WithConst(GAPPED, 2, 2, [V0], false), Select(PV, 0, 1, 1, 0);
    assert mid.nodes[1] == part;
    assert NodesOf(mid.nodes, [1]) == [part];
    assert mid.nexa[0].nets[0].isBool;
    GappedLayout(part);
    GappedFill(mid);
    assert (set id | id in [1]) == {1};
    assert mid.nodes - {1} == map[0 := Const([V1], 1), 2 := Const([V0], 2)];
  }

  lemma GappedLayout(part: Node)
    requires part == Select(PV, 0, 1, 1, 0)
    ensures Tiled([part], 0, 2)
    ensures GapFills([part], 0, 2, 2, V0) == map[2 := [V0]] && Pins([part], 0, 2, 2) == [1, 2]
  {
    assert [part][1..] == [];
    assert Fill(V0, 1) == [V0];
  }

  lemma GappedFill(mid: Netlist)
    requires mid == WithConst(GAPPED, 2, 2, [V0], false)
    ensures FillsHeld(mid, map[2 := [V0]])
  {
    assert mid.nodes[2] == Const([V0], 2) && mid.nexa[2] == FillNexus(|[V0]|, false);
    assert HoldsConst(mid, 2, [V0]);
  }

  lemma BeforeFusion(v: Valuation)
    requires v == map[0 := [V1, V1], 1 := [V1]]
    ensures Consistent(GAPPED, ANY, v)
  {
    assert SettledAt(GAPPED, ANY, v, 0) by { VariableSettled(v); }
    assert SettledAt(GAPPED, ANY, v, 1) by { PartSettled(v); }
  }

  lemma VariableSettled(v: Valuation)
    requires v == map[0 := [V1, V1], 1 := [V1]]
    ensures SettledAt(GAPPED, ANY, v, 0)
  {
    var nl, nx := GAPPED, GAPPED.nexa[0];
    assert nl.nodes[0] == Const([V1], 1) && nl.nodes[1] == Select(PV, 0, 1, 1, 0);
    assert OutBit(ANY, 1, nl.nodes[1], v, 0) == V1 && OutBit(ANY, 1, nl.nodes[1], v, 1) == Vz;
    assert NodeBits(nl, ANY, v, 0, 0) == {V1} && NodeBits(nl, ANY, v, 0, 1) == {Vz};
    assert MakesVariable(nx.nets[0]);
    assert OutsideBits(nx, ANY, 0, 0) == {Vz} && OutsideBits(nx, ANY, 0, 1) == {V1};
    assert {V1} + {Vz} == {V1, Vz} && {Vz} + {V1} == {V1, Vz};
    assert Resolve({V1, Vz}) == V1;
    assert Supplies(nx) == {} && Pulls(nx) == {};
  }

  lemma PartSettled(v: Valuation)
    requires v == map[0 := [V1, V1], 1 := [V1]]
    ensures SettledAt(GAPPED, ANY, v, 1)
  {
    var nl, nx := GAPPED, GAPPED.nexa[1];
    assert nl.nodes[0] == Const([V1], 1) && nl.nodes[1] == Select(PV, 0, 1, 1, 0);
    assert OutBit(ANY, 0, nl.nodes[0], v, 0) == V1;
    assert NodeBits(nl, ANY, v, 1, 0) == {V1};
    assert {V1} + {} == {V1} && Resolve({V1}) == V1;
    assert Supplies(nx) == {} && Pulls(nx) == {};
  }
}
