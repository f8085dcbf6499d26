/** The constant propagation pass: a functor visits every node of the design until a scan
    finds nothing to do, and then dangling constants are removed. */
module Cprop {
  import opened FourState
  import opened Netlists
  import opened Rewriting
  import opened ConstantRules
  import opened FusionRule
  import opened CpropProgress
  import opened CpropReference
  import opened CpropSteps
  import opened DanglingRule

  datatype Option<T> = None | Some(value: T)

  // ----- the node list

  function IndexOf(ids: seq<NodeId>, id: NodeId): (i: nat)
    requires id in ids
    ensures i < |ids| && ids[i] == id
  {
    if ids[0] == id then 0 else 1 + IndexOf(ids[1..], id)
  }

  /** The next node of the circular list. */
  function Successor(ids: seq<NodeId>, id: NodeId): (r: NodeId)
    requires id in ids
    ensures r in ids
  {
    var i := IndexOf(ids, id);
    if i + 1 == |ids| then ids[0] else ids[i + 1]
  }

  lemma IndexOfAt(ids: seq<NodeId>, i: nat)
    requires NoDuplicates(ids) && i < |ids|
    ensures IndexOf(ids, ids[i]) == i
  {
  }

  /** Where the scan goes once node `id` is deleted; nowhere if it was the only node. */
  function NextAfterDelete(ids: seq<NodeId>, next: Option<NodeId>, id: NodeId): Option<NodeId>
    requires id in ids
  {
    if next != Some(id) then next
    else if Successor(ids, id) == id then None
    else Some(Successor(ids, id))
  }

  lemma {:induction false} WithoutAt(ids: seq<NodeId>, i: nat)
    requires NoDuplicates(ids) && i < |ids|
    ensures Without(ids, ids[i]) == ids[..i] + ids[i + 1..]
  {
    if i == 0 {
      assert ids[1..] == ids[..0] + ids[1..];
    } else {
      WithoutAt(ids[1..], i - 1);
      assert ids[1..][..i - 1] == ids[..i][1..] && ids[..i] == [ids[0]] + ids[..i][1..];
    }
  }

  /** What deleting a node does to the circular list and to a scan that goes round it. */
  ghost predicate CutOut(ids: seq<NodeId>, next: Option<NodeId>, id: NodeId, ids': seq<NodeId>,
                         next': Option<NodeId>) {
    forall i | 0 <= i < |ids| && ids[i] == id ::
      && ids' == ids[..i] + ids[i + 1..]
      && next' == if next != Some(id) then next
                  else if |ids| == 1 then None
                  else Some(ids[if i + 1 < |ids| then i + 1 else 0])
  }

  lemma CutsOut(ids: seq<NodeId>, next: Option<NodeId>, id: NodeId)
    requires NoDuplicates(ids) && id in ids
    ensures CutOut(ids, next, id, Without(ids, id), NextAfterDelete(ids, next, id))
  {
    hide IndexOf, Without;
    forall i | 0 <= i < |ids| && ids[i] == id
      ensures Without(ids, id) == ids[..i] + ids[i + 1..]
      ensures Successor(ids, id) == ids[if i + 1 < |ids| then i + 1 else 0]
      ensures Successor(ids, id) == id <==> |ids| == 1
    {
      WithoutAt(ids, i);
      IndexOfAt(ids, i);
    }
  }

  lemma HasNet(nl: Netlist, n: NexusId)
    requires Wellformed(nl) && n in nl.nexa
    ensures nl.nexa[n].nets != []
  {
    assert NexusOk(nl.nexa[n]);
  }

  lemma InsertWellformed(nl: Netlist, id: NodeId, node: Node, at: nat)
    requires Wellformed(nl) && id !in nl.nodes && NodeOk(nl.nexa, node) && at <= |nl.order|
    ensures Wellformed(Netlist(nl.order[..at] + [id] + nl.order[at..], nl.nodes[id := node], nl.nexa))
    ensures forall m | m in nl.order :: m in nl.order[..at] + [id] + nl.order[at..]
  {
    var order := nl.order[..at] + [id] + nl.order[at..];
    assert nl.order == nl.order[..at] + nl.order[at..];
    assert id !in nl.order;
    forall i, j | 0 <= i < j < |order| ensures order[i] != order[j] {
      var i', j' := if i <= at then i else i - 1, if j <= at then j else j - 1;
      assert i != at ==> order[i] == nl.order[i'];
      assert j != at ==> order[j] == nl.order[j'];
    }
  }

  class Design {
    var order: seq<NodeId>
    var nodes: map<NodeId, Node>
    var nexa: map<NexusId, Nexus>
    var nextNode: NodeId
    var nextNexus: NexusId
    /** Where the functor scan goes next; deleting that node moves it on. */
    var functorNext: Option<NodeId>

    function Net(): Netlist
      reads this
    {
      Netlist(order, nodes, nexa)
    }

    /** The numbers that are still free. */
    predicate FreshNext()
      reads `nodes, `nexa, `nextNode, `nextNexus
    {
      && (forall id | id in nodes :: id < nextNode)
      && (forall n | n in nexa :: n < nextNexus)
    }

    ghost predicate Valid()
      reads this
    {
      && Wellformed(Net())
      && FreshNext()
      && (functorNext.Some? ==> functorNext.value in order)
    }

    /** What `Valid` promises about the list, for proofs that keep its definition hidden. */
    lemma ValidList()
      requires Valid()
      ensures Net().order == order && Net().nodes == nodes && Wellformed(Net())
      ensures NoDuplicates(order) && Listed(Net())
      ensures functorNext.Some? ==> functorNext.value in order
    {
      hide NodeOk, NexusOk;
    }

    /** The scan goes on at `next`. */
    method GoOnAt(next: Option<NodeId>)
      requires Valid() && (next.Some? ==> next.value in order)
      modifies `functorNext
      ensures Valid() && Net() == old(Net()) && functorNext == next
    {
      hide Wellformed;
      functorNext := next;
    }

    /** New nodes go to the end of the list as it was when they were made. */
    method AddNode(node: Node, at: nat) returns (id: NodeId)
      requires Valid() && NodeOk(nexa, node) && at <= |order|
      modifies this
      ensures Valid() && id == old(nextNode) && id !in old(nodes)
      ensures order == old(order[..at] + [nextNode] + order[at..])
      ensures nodes == old(nodes)[id := node] && nexa == old(nexa)
      ensures nextNexus == old(nextNexus) && functorNext == old(functorNext)
    {
      id := nextNode;
      InsertWellformed(Net(), id, node, at);
      nextNode := nextNode + 1;
      order := order[..at] + [id] + order[at..];
      nodes := nodes[id := node];
    }

    /** A constant on a local net of its own. */
    method MakeConst(bit: V4, width: nat, inRoot: bool) returns (n: NexusId)
      requires Valid() && width >= 1
      modifies this
      ensures Valid() && n == old(nextNexus) && nextNexus == n + 1 && nextNode == old(nextNode) + 1
      ensures Net() == WithConst(old(Net()), old(nextNode), n, Fill(bit, width), inRoot)
      ensures functorNext == old(functorNext)
    {
      hide Wellformed, SameMeaning, HoldsConst;
      n := nextNexus;
      AddConst(Net(), nextNode, n, Fill(bit, width), inRoot);
      order := order + [nextNode];
      nodes := nodes[nextNode := Const(Fill(bit, width), n)];
      nexa := nexa[n := FillNexus(width, inRoot)];
      nextNode := nextNode + 1;
      nextNexus := nextNexus + 1;
    }

    method DelNode(id: NodeId)
      requires Valid() && id in nodes
      modifies this
      ensures Valid() && Net() == WithoutNode(old(Net()), id)
      ensures nextNode == old(nextNode) && nextNexus == old(nextNexus)
      ensures functorNext == NextAfterDelete(old(order), old(functorNext), id)
      ensures CutOut(old(order), old(functorNext), id, order, functorNext)
    {
      hide Wellformed, Without, CutOut;
      WellformedOrder(Net());
      CutsOut(order, functorNext, id);
      WithoutNodeWellformed(Net(), id);
      WithoutKeepsRest(order, id);
      functorNext := NextAfterDelete(order, functorNext, id);
      order := Without(order, id);
      nodes := nodes - {id};
    }

    /** Connect the input pins of a concatenation: the parts in base order, and a filler
        constant wherever there is a gap. */
    method ConnectPins(ids: seq<NodeId>, size: nat, bit: V4, inRoot: bool)
      returns (pins: seq<NexusId>, ghost fills: Valuation)
      requires Valid() && PartIds(nodes, ids) && Tiled(NodesOf(nodes, ids), 0, size)
      modifies this
      ensures Valid() && Grown(old(Net()), Net(), fills)
      ensures pins == Pins(old(NodesOf(nodes, ids)), 0, size, old(nextNexus))
      ensures fills == GapFills(old(NodesOf(nodes, ids)), 0, size, old(nextNexus), bit)
      ensures functorNext == old(functorNext)
    {
      hide Wellformed, Grown, Tiled, Pins, GapFills, PinsSoFar, WithConst;
      ghost var nl, parts, next := Net(), NodesOf(nodes, ids), nextNexus;
      GrownRefl(nl);
      PinsStart(parts, size, next, bit);
      pins, fills := [], map[];
      var off: nat := 0;
      for idx := 0 to |ids|
        invariant Valid() && Grown(nl, Net(), fills) && functorNext == old(functorNext)
        invariant PinsSoFar(parts, idx, off, size, next, nextNexus, bit, pins, fills)
      {
        GrownNode(nl, Net(), fills, ids[idx]);
        var part := nodes[ids[idx]];
        PinsStep(parts, idx, off, size, next, nextNexus, bit, pins, fills);
        if part.base > off {
          GrowStep(nl, Net(), fills, nextNode, nextNexus, Fill(bit, part.base - off), inRoot);
          var gap := MakeConst(bit, part.base - off, inRoot);
          fills := fills[gap := Fill(bit, part.base - off)];
          pins := pins + [gap];
          off := part.base;
        }
        pins := pins + [part.part];
        off := off + part.width;
      }
      PinsEnd(parts, off, size, next, nextNexus, bit, pins, fills);
      if off < size {
        GrowStep(nl, Net(), fills, nextNode, nextNexus, Fill(bit, size - off), inRoot);
        var gap := MakeConst(bit, size - off, inRoot);
        fills := fills[gap := Fill(bit, size - off)];
        pins := pins + [gap];
      }
    }

    /** Replace the parts that drive nexus `n` by one concatenation. */
    method Fuse(n: NexusId, ids: seq<NodeId>, twoState: bool) returns (ghost fills: Valuation)
      requires Valid() && DrivenByParts(Net(), n, ids) && PartIds(nodes, ids) && NoDuplicates(ids)
      requires ids != [] && Tiled(NodesOf(nodes, ids), 0, Width(nexa[n])) && (twoState <==> TwoState(nexa[n]))
      modifies this
      ensures Valid()
      ensures FusedInto(old(Net()), Net(), n, ids, old(nextNexus), fills)
      ensures Improves(old(Net()), Net(), fills, old(FillsHarmlessly(Net(), n, NodesOf(nodes, ids))))
    {
      hide Wellformed, Grown, Improves, FusedInto, Tiled, GapFills, Pins, HoldsConst, FillsHeld, NodeOk, TwoState;
      ghost var nl, next := Net(), nextNexus;
      var size, at := Width(nexa[n]), |order|;
      HasNet(nl, n);
      var partCount := CountPins(Net(), ids, size);
      var pins;
      pins, fills := ConnectPins(ids, size, if twoState then V0 else Vz, nexa[n].nets[0].inRoot);
      GapFillsNew(NodesOf(nl.nodes, ids), 0, size, next, FillBit(nl.nexa[n]));
      assert 1 + |pins| == 1 + partCount;
      ghost var mid := Net();
      GrownParts(nl, mid, fills, n, ids);
      GrownOrder(nl, mid, fills);
      PinsConnect(mid, n, ids, next);
      var cid := AddNode(Concat(size, false, pins, n), at);
      DeleteAll(ids);
      assert nodes == FusedNodes(nl, mid, n, ids, next, cid);
      FusedState(nl, mid, Net(), fills, n, ids, next, cid);
      FusedIntoImproves(nl, Net(), n, ids, next, fills);
    }

    method DeleteAll(ids: seq<NodeId>)
      requires Valid() && NoDuplicates(ids) && forall id | id in ids :: id in nodes
      modifies this
      ensures Valid() && nodes == old(nodes) - (set id | id in ids) && nexa == old(nexa)
    {
      hide Wellformed, Without;
      for idx := 0 to |ids|
        invariant Valid() && nexa == old(nexa)
        invariant nodes == old(nodes) - (set id | id in ids[..idx])
      {
        assert ids[idx] !in ids[..idx];
        DelNode(ids[idx]);
        assert ids[..idx + 1] == ids[..idx] + [ids[idx]];
      }
      assert ids[..|ids|] == ids;
    }

    /** Add a node, then delete the one it stands in for. */
    method Supersede(id: NodeId, node: Node)
      requires Valid() && id in nodes && NodeOk(nexa, node)
      modifies this
      ensures Valid() && Net() == Replaced(old(Net()), id, old(nextNode), node)
    {
      ghost var nl := Net();
      var id' := AddNode(node, |order|);
      AddThenDelete(nl, id, id', node);
      DelNode(id);
    }
  }

  lemma SetSlice(joined: Vec, tmp: Vec, width: nat)
    requires |joined| + |tmp| <= width
    ensures var result := joined + Fill(Vz, width - |joined|);
      result[..|joined|] + tmp + result[|joined| + |tmp|..] ==
      (joined + tmp) + Fill(Vz, width - |joined| - |tmp|)
  {
  }

  lemma AddThenDelete(nl: Netlist, id: NodeId, id': NodeId, node: Node)
    requires Wellformed(nl) && id in nl.nodes && id' !in nl.nodes
    ensures WithoutNode(WithNode(nl, id', node), id) == Replaced(nl, id, id', node)
    ensures nl.order[..|nl.order|] + [id'] + nl.order[|nl.order|..] == nl.order + [id']
  {
    WithoutAppend(nl.order, id, id');
    assert (nl.nodes[id' := node]) - {id} == (nl.nodes - {id})[id' := node];
  }

  lemma {:induction false} WithoutAppend(ids: seq<NodeId>, id: NodeId, id': NodeId)
    requires id in ids
    ensures Without(ids + [id'], id) == Without(ids, id) + [id']
  {
    assert (ids + [id'])[1..] == ids[1..] + [id'];
    if ids[0] != id {
      WithoutAppend(ids[1..], id, id');
    }
  }

  // ----- a pass over the node list

  function ConstantIds(nodes: map<NodeId, Node>, ids: seq<NodeId>): seq<NodeId>
    requires forall id | id in ids :: id in nodes
  {
    if ids == [] then []
    else (if nodes[ids[0]].Const? then [ids[0]] else []) + ConstantIds(nodes, ids[1..])
  }

  lemma NoConstants(nodes: map<NodeId, Node>)
    ensures ConstantIds(nodes, []) == []
  {
  }

  lemma {:induction false} ConstantIdsAppend(nodes: map<NodeId, Node>, p: seq<NodeId>, q: seq<NodeId>)
    requires (forall id | id in p :: id in nodes) && (forall id | id in q :: id in nodes)
    ensures ConstantIds(nodes, p + q) == ConstantIds(nodes, p) + ConstantIds(nodes, q)
  {
    hide ConstantIds;
    if p == [] {
      NoConstants(nodes);
      assert p + q == q;
    } else {
      assert (p + q)[0] == p[0] && (p + q)[1..] == p[1..] + q;
      ConstantsFirst(nodes, p);
      ConstantsFirst(nodes, p + q);
      ConstantIdsAppend(nodes, p[1..], q);
    }
  }

  lemma ConstantsFirst(nodes: map<NodeId, Node>, ids: seq<NodeId>)
    requires ids != [] && forall id | id in ids :: id in nodes
    ensures ConstantIds(nodes, ids) == (if nodes[ids[0]].Const? then [ids[0]] else []) + ConstantIds(nodes, ids[1..])
  {
  }

  lemma {:induction false} ConstantIdsAre(nodes: map<NodeId, Node>, ids: seq<NodeId>)
    requires NoDuplicates(ids) && forall id | id in ids :: id in nodes
    ensures NoDuplicates(ConstantIds(nodes, ids))
    ensures forall id :: id in ConstantIds(nodes, ids) <==> id in ids && nodes[id].Const?
  {
    if ids != [] {
      assert ids[0] !in ids[1..];
      ConstantIdsAre(nodes, ids[1..]);
    }
  }

  /** The scan starts at the anchor, the last node, and goes round to it. */
  function Rotated(ids: seq<NodeId>): (r: seq<NodeId>)
    ensures forall id :: id in r <==> id in ids
  {
    if ids == [] then []
    else
      assert ids == ids[..|ids| - 1] + [ids[|ids| - 1]];
      [ids[|ids| - 1]] + ids[..|ids| - 1]
  }

  /** What the scan has seen of an unchanged list when it is about to visit `cur`. */
  function Visited(ids: seq<NodeId>, cur: NodeId, first: bool): (r: seq<NodeId>)
    requires cur in ids
    ensures forall id | id in r :: id in ids
  {
    if first then [] else [ids[|ids| - 1]] + ids[..IndexOf(ids, cur)]
  }

  lemma SuccessorIs(ids: seq<NodeId>, cur: NodeId)
    requires NoDuplicates(ids) && cur in ids
    ensures cur == ids[|ids| - 1] ==> Successor(ids, cur) == ids[0]
    ensures cur != ids[|ids| - 1] ==>
      IndexOf(ids, cur) + 1 < |ids| && Successor(ids, cur) == ids[IndexOf(ids, cur) + 1]
    ensures IndexOf(ids, Successor(ids, cur)) == if cur == ids[|ids| - 1] then 0 else IndexOf(ids, cur) + 1
  {
    hide IndexOf;
    IndexOfAt(ids, |ids| - 1);
    if cur == ids[|ids| - 1] {
      IndexOfAt(ids, 0);
    } else {
      IndexOfAt(ids, IndexOf(ids, cur) + 1);
    }
  }

  lemma VisitedNext(ids: seq<NodeId>, cur: NodeId, first: bool)
    requires NoDuplicates(ids) && cur in ids && (first <==> cur == ids[|ids| - 1])
    ensures var next := Successor(ids, cur);
      && (next != ids[|ids| - 1] ==> Visited(ids, next, false) == Visited(ids, cur, first) + [cur])
      && (next == ids[|ids| - 1] ==> Rotated(ids) == Visited(ids, cur, first) + [cur])
      && (first ==> IndexOf(ids, next) == 0)
      && (!first ==> IndexOf(ids, next) == IndexOf(ids, cur) + 1)
  {
    hide IndexOf, Successor, NoDuplicates;
    SuccessorIs(ids, cur);
    IndexOfAt(ids, |ids| - 1);
    if first {
      assert ids[..0] == [];
    } else {
      TakeNext(ids, IndexOf(ids, cur));
    }
  }

  lemma TakeNext(ids: seq<NodeId>, i: nat)
    requires i + 1 < |ids|
    ensures [ids[|ids| - 1]] + ids[..i + 1] == ([ids[|ids| - 1]] + ids[..i]) + [ids[i]]
  {
  }

  lemma KindsApart(nl: Netlist, id: NodeId)
    requires Wellformed(nl) && id in nl.nodes
    ensures CanFold(nl, id) ==> nl.nodes[id].Concat?
    ensures CanBypass(nl, id) ==> nl.nodes[id].Mux?
    ensures ConstantIds(nl.nodes, [id]) == if nl.nodes[id].Const? then [id] else []
  {
    assert [id][1..] == [];
  }

  // ----- the functor

  class CpropFunctor {
    var count: nat
    var constants: seq<NodeId>

    constructor ()
      ensures count == 0 && constants == []
    {
      count := 0;
      constants := [];
    }

    method LpmConst(des: Design, obj: NodeId)
      modifies this
      ensures constants == old(constants) + [obj] && count == old(count)
    {
      constants := constants + [obj];
    }

    /** Replace a concatenation of constants by a constant. */
    method LpmConcat(des: Design, obj: NodeId)
      requires des.Valid() && obj in des.nodes && des.nodes[obj].Concat?
      modifies this, des
      ensures des.Valid() && constants == old(constants)
      ensures old(CanFold(des.Net(), obj) <==> FoldApplies(des.Net(), obj))
      ensures !old(CanFold(des.Net(), obj)) ==> unchanged(des) && count == old(count)
      ensures old(CanFold(des.Net(), obj)) ==>
        && count == old(count) + 1
        && des.Net() == old(Replaced(des.Net(), obj, des.nextNode,
                                     Const(Folded(des.Net(), des.nodes[obj]), des.nodes[obj].out)))
        && Improves(old(des.Net()), des.Net(), map[], old(FoldsExactly(des.Net(), des.nodes[obj].ins)))
    {
      hide Wellformed, Clean, SameMeaning, Weight, Folded, DriversConstant, DrivenVector, Improves, FoldApplies,
        ConstantAt;
      WellformedListed(des.Net());
      FoldIff(des.Net(), obj);
      var node := des.nodes[obj];
      ghost var nl := des.Net();
      if node.transparent {
        return;
      }
      var constant, result := FoldInputs(des.Net(), obj);
      if !constant {
        return;
      }
      FoldImproves(nl, obj, des.nextNode);
      des.Supersede(obj, Const(result, node.out));
      count := count + 1;
    }

    /** Replace a two-way mux with a defined constant select by a buffer. */
    method LpmMux(des: Design, obj: NodeId)
      requires des.Valid() && obj in des.nodes && des.nodes[obj].Mux?
      modifies this, des
      ensures des.Valid() && constants == old(constants)
      ensures old(CanBypass(des.Net(), obj) <==> exists input :: BypassApplies(des.Net(), obj, input))
      ensures old(CanBypass(des.Net(), obj) ==> BypassApplies(des.Net(), obj, Bypass(des.Net(), obj).inp))
      ensures !old(CanBypass(des.Net(), obj)) ==> unchanged(des) && count == old(count)
      ensures old(CanBypass(des.Net(), obj)) ==>
        && count == old(count) + 1
        && des.Net() == old(Replaced(des.Net(), obj, des.nextNode, Bypass(des.Net(), obj)))
        && Improves(old(des.Net()), des.Net(), map[], true)
    {
      hide Wellformed, Clean, SameMeaning, Weight, Folded, DriversConstant, DrivenVector, Improves, SelectValue,
        BypassApplies;
      WellformedListed(des.Net());
      BypassIff(des.Net(), obj);
      var node := des.nodes[obj];
      ghost var nl := des.Net();
      MuxOk(nl, obj);
      if |node.data| != 2 || node.selWidth != 1 || !DriversConstant(des.Net(), node.sel) {
        return;
      }
      var value := SelectValue(des.Net(), node.sel);
      if value == Vz || value == Vx {
        return;
      }
      BypassOk(nl, obj);
      BypassImproves(nl, obj, des.nextNode);
      des.DelNode(obj);
      var data := if value == V1 then node.data[1] else node.data[0];
      var id := des.AddNode(Bufz(node.width, data, node.out), |des.order|);
      InsertLast(WithoutNode(nl, obj).order, id);
      count := count + 1;
    }

    /** Fuse the part selects that drive one nexus into a concatenation. */
    method LpmPartSelect(des: Design, obj: NodeId) returns (ghost fills: Valuation, ghost ids: seq<NodeId>)
      requires des.Valid() && obj in des.nodes && des.nodes[obj].Select?
      modifies this, des
      ensures des.Valid() && constants == old(constants)
      ensures old(IsPart(des.nodes[obj]) && CanFuse(des.Net(), des.nodes[obj].vec)
                  <==> des.nodes[obj].dir == PV && des.nodes[obj].vec in des.nexa
                       && FusionApplies(des.Net(), des.nodes[obj].vec))
      ensures !old(IsPart(des.nodes[obj]) && CanFuse(des.Net(), des.nodes[obj].vec)) ==>
        unchanged(des) && count == old(count)
      ensures old(IsPart(des.nodes[obj]) && CanFuse(des.Net(), des.nodes[obj].vec)) ==>
        && count == old(count) + 1
        && ids == old(FusedIds(des.Net(), des.nodes[obj].vec))
        && FusedInto(old(des.Net()), des.Net(), old(des.nodes[obj].vec), ids, old(des.nextNexus), fills)
        && Improves(old(des.Net()), des.Net(), fills, old(StepExact(des.Net(), obj)))
    {
      hide Clean, SameMeaning, Weight, Improves, FusedInto, CanFuse, Drivers, Tiled, StepExact, SortByBase,
        FillsHarmlessly, SortedByBase, FusionApplies;
      PartFuses(des.Net(), obj);
      fills, ids := map[], [];
      var node := des.nodes[obj];
      ghost var nl := des.Net();
      if node.dir != PV {
        return;
      }
      var n := node.vec;
      var allParts, twoState, found := CollectParts(des.Net(), obj);
      if CanFuse(nl, n) {
        CanFuseParts(nl, n);
      }
      if !allParts || |found| == 0 || (|found| == 1 && !twoState) {
        return;
      }
      var parts := SortByBase(des.nodes, found);
      SortSorts(des.nodes, found);
      SortedDrivers(nl, n, found, parts);
      var size := Width(des.nexa[n]);
      var fits := NoOverlaps(des.Net(), parts, size);
      FusableIffFits(nl, n, parts);
      if !fits {
        return;
      }
      FusionExact(nl, obj);
      ids := parts;
      fills := des.Fuse(n, parts, twoState);
      count := count + 1;
    }

    /** What the functor does at one node: the rewriting that applies, or it collects a constant. */
    method Visit(des: Design, id: NodeId) returns (ghost fills: Valuation)
      requires des.Valid() && id in des.nodes
      modifies this, des
      ensures des.Valid()
      ensures old(CanRewrite(des.Net(), id) <==> Applies(des.Net(), id))
      ensures !old(CanRewrite(des.Net(), id)) ==>
        unchanged(des) && count == old(count) && constants == old(constants + ConstantIds(des.nodes, [id]))
      ensures old(CanRewrite(des.Net(), id)) ==>
        && count == old(count) + 1 && constants == old(constants)
        && Made(Step(old(des.Net()), id, des.Net(), fills))
    {
      hide Wellformed, Improves, CanFuse, CanFold, CanBypass, Made, FusedInto, FusedIds, Applies, FoldApplies,
        BypassApplies, FusionApplies;
      ghost var nl, next, nexus := des.Net(), des.nextNode, des.nextNexus;
      WellformedListed(nl);
      AppliesIff(nl, id);
      KindsApart(nl, id);
      fills := map[];
      match des.nodes[id] {
        case Const(_, _) =>
          LpmConst(des, id);
        case Concat(_, _, _, _) =>
          LpmConcat(des, id);
          if CanFold(nl, id) {
            FoldMade(nl, id, next, des.Net());
          }
        case Mux(_, _, _, _, _) =>
          LpmMux(des, id);
          if CanBypass(nl, id) {
            BypassMade(nl, id, next, des.Net());
          }
        case Select(_, _, _, _, _) =>
          ghost var ids;
          fills, ids := LpmPartSelect(des, id);
          if IsPart(nl.nodes[id]) && CanFuse(nl, nl.nodes[id].vec) {
            FuseMade(nl, id, nexus, des.Net(), fills);
          }
        case _ =>
      }
    }

    /** One pass of the functor over the node list. A pass that counts nothing has left the
        netlist alone, found nothing to optimize at any node, and collected every constant. */
    method FunctorNodes(des: Design) returns (ghost steps: seq<Step>)
      requires des.Valid()
      modifies this, des
      ensures des.Valid() && Taken(old(des.Net()), des.Net(), steps)
      ensures count == old(count) + |steps| && |steps| + Weight(des.Net()) <= old(Weight(des.Net()))
      ensures count == old(count) ==>
        && des.Net() == old(des.Net())
        && (forall id | id in des.nodes :: !CanRewrite(des.Net(), id))
        && constants == old(constants + ConstantIds(des.nodes, Rotated(des.order)))
    {
      hide *;
      steps := [];
      ghost var nl, k0 := des.Net(), constants;
      des.ValidList();
      if |des.order| == 0 {
        EmptyScan(nl, k0);
        return;
      }
      ghost var seen := [];
      var cur := des.order[|des.order| - 1];
      var first := true;
      ScanStarts(nl, k0);
      while true
        invariant des.Valid() && cur in des.order && (!first ==> cur != des.order[|des.order| - 1])
        invariant count == old(count) + |steps|
        invariant Scanning(nl, des.Net(), steps, cur, first, seen, k0, constants)
        decreases Weight(des.Net()), if first then |des.order| else |des.order| - 1 - IndexOf(des.order, cur)
      {
        ghost var before, k1 := des.Net(), constants;
        des.ValidList();
        ListedIn(before, cur);
        SuccessorIs(before.order, cur);
        des.GoOnAt(Some(Successor(des.order, cur)));
        ghost var more := Visit(des, cur);
        des.ValidList();
        if CanRewrite(before, cur) {
          ghost var s := Step(before, cur, des.Net(), more);
          ghost var next := if des.functorNext.Some? then des.functorNext.value else cur;
          OneMoreMade(nl, steps, s, cur, first, next, seen, k0, k1);
          steps := steps + [s];
        } else {
          NothingMade(nl, before, steps, cur, first, seen, k0, k1);
          seen := seen + [cur];
        }
        if des.functorNext.None? {
          break;
        }
        cur := des.functorNext.value;
        first := false;
        if cur == des.order[|des.order| - 1] {
          break;
        }
      }
      des.GoOnAt(None);
      ScanEnds(nl, des.Net(), steps, k0, constants);
    }
  }

  /** The scan is about to visit `cur`: the steps made lead from `nl` to `now`, and as long as
      there are none, nothing has been seen that could be rewritten. */
  ghost predicate Scanning(nl: Netlist, now: Netlist, steps: seq<Step>, cur: NodeId, first: bool, seen: seq<NodeId>,
                           start: seq<NodeId>, constants: seq<NodeId>)
  {
    && Taken(nl, now, steps) && |steps| + Weight(now) <= Weight(nl)
    && (steps == [] ==> now == nl && SoFar(nl, cur, first, seen, start, constants))
  }

  /** The scan is over. */
  ghost predicate Ended(nl: Netlist, now: Netlist, steps: seq<Step>, start: seq<NodeId>, constants: seq<NodeId>) {
    && Taken(nl, now, steps) && |steps| + Weight(now) <= Weight(nl)
    && (steps == [] ==> now == nl && ScanDone(nl, start, constants))
  }

  /** While nothing has been rewritten: what has been seen, and collected, when the scan is about
      to visit `cur`. */
  ghost predicate SoFar(nl: Netlist, cur: NodeId, first: bool, seen: seq<NodeId>, start: seq<NodeId>,
                        constants: seq<NodeId>)
  {
    && Listed(nl) && NoDuplicates(nl.order) && cur in nl.order
    && (first <==> cur == nl.order[|nl.order| - 1])
    && seen == Visited(nl.order, cur, first)
    && constants == start + ConstantIds(nl.nodes, seen)
    && forall id | id in seen :: !CanRewrite(nl, id)
  }

  /** A whole scan has found nothing to do, and has collected every constant. */
  ghost predicate ScanDone(nl: Netlist, start: seq<NodeId>, constants: seq<NodeId>) {
    && Listed(nl)
    && (forall id | id in nl.order :: !CanRewrite(nl, id))
    && constants == start + ConstantIds(nl.nodes, Rotated(nl.order))
  }

  lemma NothingSeen(nl: Netlist, start: seq<NodeId>)
    requires Listed(nl) && NoDuplicates(nl.order) && nl.order != []
    ensures SoFar(nl, nl.order[|nl.order| - 1], true, [], start, start)
  {
    hide NoDuplicates, CanRewrite;
  }

  lemma SoFarNext(nl: Netlist, cur: NodeId, first: bool, seen: seq<NodeId>, start: seq<NodeId>, constants: seq<NodeId>)
    requires SoFar(nl, cur, first, seen, start, constants) && !CanRewrite(nl, cur)
    ensures var next, more := Successor(nl.order, cur), constants + ConstantIds(nl.nodes, [cur]);
      if next == nl.order[|nl.order| - 1] then ScanDone(nl, start, more)
      else SoFar(nl, next, false, seen + [cur], start, more)
  {
    hide NoDuplicates, CanRewrite, Visited, Rotated, Successor, IndexOf, ConstantIds;
    VisitedNext(nl.order, cur, first);
    ConstantIdsAppend(nl.nodes, seen, [cur]);
    assert forall id | id in seen + [cur] :: !CanRewrite(nl, id);
  }

  lemma FoldMade(nl: Netlist, id: NodeId, id': NodeId, nl': Netlist)
    requires Wellformed(nl) && Wellformed(nl') && CanFold(nl, id) && id' !in nl.nodes
    requires nl' == Replaced(nl, id, id', Const(Folded(nl, nl.nodes[id]), nl.nodes[id].out))
    ensures Made(Step(nl, id, nl', map[]))
  {
    hide Wellformed, CanFuse, FusedInto, Replaced, Folded, DriversConstant;
    WellformedListed(nl);
    assert FoldedBy(Step(nl, id, nl', map[]), id');
  }

  lemma BypassMade(nl: Netlist, id: NodeId, id': NodeId, nl': Netlist)
    requires Wellformed(nl) && Wellformed(nl') && CanBypass(nl, id) && id' !in nl.nodes
    requires nl' == Replaced(nl, id, id', Bypass(nl, id))
    ensures Made(Step(nl, id, nl', map[]))
  {
    hide Wellformed, CanFuse, FusedInto, Replaced, Bypass, DriversConstant;
    WellformedListed(nl);
    assert BypassedBy(Step(nl, id, nl', map[]), id');
  }

  lemma FuseMade(nl: Netlist, id: NodeId, next: NexusId, nl': Netlist, fills: Valuation)
    requires Wellformed(nl) && Wellformed(nl') && id in nl.nodes && IsPart(nl.nodes[id])
    requires CanFuse(nl, nl.nodes[id].vec)
    requires FusedInto(nl, nl', nl.nodes[id].vec, FusedIds(nl, nl.nodes[id].vec), next, fills)
    ensures Made(Step(nl, id, nl', fills))
  {
    hide Wellformed, CanFuse, FusedInto, FusedIds, DriversConstant;
    WellformedListed(nl);
    assert FusedFrom(Step(nl, id, nl', fills), next);
  }

  lemma OneMoreMade(nl: Netlist, steps: seq<Step>, s: Step, cur: NodeId, first: bool, next: NodeId, seen: seq<NodeId>,
                    start: seq<NodeId>, constants: seq<NodeId>)
    requires Scanning(nl, s.before, steps, cur, first, seen, start, constants) && Wellformed(s.before) && Made(s)
    ensures Weight(s.after) < Weight(s.before)
    ensures Scanning(nl, s.after, steps + [s], next, false, seen, start, constants)
    ensures Ended(nl, s.after, steps + [s], start, constants)
  {
    hide Made, Taken, Weight, Wellformed, SameMeaning, Clean, SoFar, ScanDone;
    TakenNext(nl, steps, s);
    MadeImproves(s);
  }

  lemma NothingMade(nl: Netlist, now: Netlist, steps: seq<Step>, cur: NodeId, first: bool, seen: seq<NodeId>,
                    start: seq<NodeId>, constants: seq<NodeId>)
    requires Scanning(nl, now, steps, cur, first, seen, start, constants) && cur in now.order && Listed(now)
    requires !CanRewrite(now, cur)
    ensures var next, more := Successor(now.order, cur), constants + ConstantIds(now.nodes, [cur]);
      if next == now.order[|now.order| - 1] then Ended(nl, now, steps, start, more)
      else Scanning(nl, now, steps, next, false, seen + [cur], start, more)
  {
    hide Taken, Weight, SoFar, ScanDone, CanRewrite, Successor, ConstantIds;
    if steps == [] {
      SoFarNext(nl, cur, first, seen, start, constants);
    }
  }

  lemma EmptyScan(nl: Netlist, start: seq<NodeId>)
    requires Wellformed(nl) && nl.order == []
    ensures Taken(nl, nl, []) && forall id :: id !in nl.nodes
    ensures start == start + ConstantIds(nl.nodes, Rotated(nl.order))
  {
    hide Wellformed, Taken;
    WellformedOrder(nl);
    TakenNone(nl);
  }

  lemma ScanStarts(nl: Netlist, start: seq<NodeId>)
    requires Listed(nl) && NoDuplicates(nl.order) && nl.order != []
    ensures Scanning(nl, nl, [], nl.order[|nl.order| - 1], true, [], start, start)
  {
    hide NoDuplicates, CanRewrite, Taken, SoFar;
    TakenNone(nl);
    NothingSeen(nl, start);
  }

  lemma ScanEnds(nl: Netlist, now: Netlist, steps: seq<Step>, start: seq<NodeId>, constants: seq<NodeId>)
    requires Ended(nl, now, steps, start, constants) && Wellformed(nl)
    ensures Taken(nl, now, steps) && |steps| + Weight(now) <= Weight(nl)
    ensures steps == [] ==>
      && now == nl && Listed(nl) && (forall id | id in nl.nodes :: !CanRewrite(nl, id))
      && constants == start + ConstantIds(nl.nodes, Rotated(nl.order))
  {
    hide Wellformed, Taken, Weight, CanRewrite, ConstantIds, Rotated;
    WellformedOrder(nl);
  }

  lemma ListedIn(nl: Netlist, id: NodeId)
    requires Listed(nl) && id in nl.order
    ensures id in nl.nodes
  {
  }

  /** The constant that the inputs of a concatenation add up to, if they are constant. */
  method FoldInputs(nl: Netlist, obj: NodeId) returns (constant: bool, result: Vec)
    requires Wellformed(nl) && obj in nl.nodes && nl.nodes[obj].Concat?
    ensures constant <==> AllConstant(nl, nl.nodes[obj].ins)
    ensures constant <==> forall n | n in nl.nodes[obj].ins :: ConstantAt(nl, n)
    ensures constant ==> result == Folded(nl, nl.nodes[obj])
    ensures forall vs | ConstantsAre(nl, nl.nodes[obj].ins, vs) ::
      |Join(vs)| <= nl.nodes[obj].width && result == Join(vs) + Fill(Vz, nl.nodes[obj].width - |Join(vs)|)
  {
    hide Wellformed, DriversConstant, DrivenVector, Join, FoldedSoFar, ConstantAt, ConstantsAre, Folded;
    InputsConstant(nl, obj);
    WellformedListed(nl);
    var node := nl.nodes[obj];
    FoldStart(nl, obj);
    result := Fill(Vz, node.width);
    var off: nat := 0;
    for idx := 0 to |node.ins|
      invariant FoldedSoFar(nl, node, idx, off, result)
    {
      FoldInput(nl, node, idx, off, result);
      if !DriversConstant(nl, node.ins[idx]) {
        return false, result;
      }
      var tmp := DrivenVector(nl, node.ins[idx]);
      FoldStep(nl, obj, idx, off, result);
      result := result[..off] + tmp + result[off + |tmp|..];
      off := off + |tmp|;
    }
    assert node.ins[..|node.ins|] == node.ins;
    constant := true;
    FoldDone(nl, node, off, result);
  }

  /** What the scan recognises as constant inputs, and what it makes of them. */
  lemma InputsConstant(nl: Netlist, obj: NodeId)
    requires Wellformed(nl) && obj in nl.nodes && nl.nodes[obj].Concat?
    ensures Listed(nl)
    ensures AllConstant(nl, nl.nodes[obj].ins) <==> forall n | n in nl.nodes[obj].ins :: ConstantAt(nl, n)
    ensures forall vs | ConstantsAre(nl, nl.nodes[obj].ins, vs) ::
      && AllConstant(nl, nl.nodes[obj].ins)
      && |Join(vs)| <= nl.nodes[obj].width
      && Folded(nl, nl.nodes[obj]) == Join(vs) + Fill(Vz, nl.nodes[obj].width - |Join(vs)|)
  {
    hide DriversConstant, ConstantAt, ConstantsAre, DrivenVectors, Join, NexusOk;
    WellformedListed(nl);
    var node := nl.nodes[obj];
    assert NodeOk(nl.nexa, node) && Ins(node) == node.ins;
    forall n | n in node.ins ensures n in nl.nexa && (DriversConstant(nl, n) <==> ConstantAt(nl, n)) {
      ConstantIff(nl, n);
    }
    forall vs | ConstantsAre(nl, node.ins, vs)
      ensures AllConstant(nl, node.ins) && |Join(vs)| <= node.width
      ensures Folded(nl, node) == Join(vs) + Fill(Vz, node.width - |Join(vs)|)
    {
      ConstantsJoined(nl, node.ins, vs);
      JoinedWidth(nl, node.ins);
    }
  }

  lemma PartFuses(nl: Netlist, obj: NodeId)
    requires Wellformed(nl) && obj in nl.nodes && nl.nodes[obj].Select?
    ensures Listed(nl)
    ensures IsPart(nl.nodes[obj]) && CanFuse(nl, nl.nodes[obj].vec) <==>
      nl.nodes[obj].dir == PV && nl.nodes[obj].vec in nl.nexa && FusionApplies(nl, nl.nodes[obj].vec)
  {
    hide Wellformed, CanFuse, FusionApplies;
    WellformedListed(nl);
    if IsPart(nl.nodes[obj]) {
      PartOut(nl, obj);
      FuseIff(nl, nl.nodes[obj].vec);
    }
  }

  lemma FoldDone(nl: Netlist, node: Node, off: nat, result: Vec)
    requires Wellformed(nl) && node.Concat? && FoldedSoFar(nl, node, |node.ins|, off, result)
    ensures AllConstant(nl, node.ins) && result == Folded(nl, node)
  {
    hide Wellformed, DriversConstant, DrivenVector, Join;
    WellformedListed(nl);
    assert node.ins[..|node.ins|] == node.ins;
  }

  /** The first `idx` inputs are constant and fill the low `off` bits of `result`. */
  ghost predicate FoldedSoFar(nl: Netlist, node: Node, idx: nat, off: nat, result: Vec)
    requires Wellformed(nl) && node.Concat? && idx <= |node.ins|
  {
    && (forall n | n in node.ins :: n in nl.nexa)
    && AllConstant(nl, node.ins[..idx])
    && off == |Join(DrivenVectors(nl, node.ins[..idx]))| == SumWidths(nl.nexa, node.ins[..idx]) <= node.width
    && result == Join(DrivenVectors(nl, node.ins[..idx])) + Fill(Vz, node.width - off)
  }

  lemma FoldInput(nl: Netlist, node: Node, idx: nat, off: nat, result: Vec)
    requires Wellformed(nl) && node.Concat? && idx < |node.ins| && FoldedSoFar(nl, node, idx, off, result)
    ensures node.ins[idx] in nl.nexa
  {
  }

  lemma FoldStart(nl: Netlist, obj: NodeId)
    requires Wellformed(nl) && obj in nl.nodes && nl.nodes[obj].Concat?
    ensures FoldedSoFar(nl, nl.nodes[obj], 0, 0, Fill(Vz, nl.nodes[obj].width))
  {
    var node := nl.nodes[obj];
    assert NodeOk(nl.nexa, node) && Ins(node) == node.ins;
    assert node.ins[..0] == [];
  }

  lemma FoldStep(nl: Netlist, obj: NodeId, idx: nat, off: nat, result: Vec)
    requires Wellformed(nl) && obj in nl.nodes && nl.nodes[obj].Concat? && idx < |nl.nodes[obj].ins|
    requires FoldedSoFar(nl, nl.nodes[obj], idx, off, result)
    requires nl.nodes[obj].ins[idx] in nl.nexa && DriversConstant(nl, nl.nodes[obj].ins[idx])
    ensures var tmp := DrivenVector(nl, nl.nodes[obj].ins[idx]);
      && off + |tmp| <= |result|
      && FoldedSoFar(nl, nl.nodes[obj], idx + 1, off + |tmp|, result[..off] + tmp + result[off + |tmp|..])
  {
    hide DriversConstant, DrivenVector, Join;
    var node := nl.nodes[obj];
    assert NodeOk(nl.nexa, node);
    JoinNext(nl, node.ins, idx, node.width);
    SetSlice(Join(DrivenVectors(nl, node.ins[..idx])), DrivenVector(nl, node.ins[idx]), node.width);
  }

  // ----- the pass

  /** Scan until a pass finds nothing to do. `total` counts the optimizations of all passes. */
  method Propagate(des: Design, prop: CpropFunctor) returns (total: nat, ghost steps: seq<Step>)
    requires des.Valid()
    modifies des, prop
    ensures des.Valid() && Taken(old(des.Net()), des.Net(), steps)
    ensures total == |steps| && total + Weight(des.Net()) <= old(Weight(des.Net()))
    ensures NothingLeft(des.Net()) && forall id | id in des.nodes :: !CanRewrite(des.Net(), id)
    ensures NoDuplicates(prop.constants)
    ensures forall id :: id in prop.constants <==> id in des.nodes && des.nodes[id].Const?
  {
    hide Wellformed, CanRewrite, Weight, ConstantIds, Taken, NothingLeft;
    total, steps := 0, [];
    ghost var nl := des.Net();
    TakenNone(nl);
    var again := true;
    while again
      invariant des.Valid() && Taken(nl, des.Net(), steps)
      invariant total == |steps| && total + Weight(des.Net()) <= Weight(nl)
      invariant !again ==>
        && Listed(des.Net())
        && (forall id | id in des.nodes :: !CanRewrite(des.Net(), id))
        && (forall id | id in Rotated(des.order) :: id in des.nodes)
        && prop.constants == ConstantIds(des.nodes, Rotated(des.order))
      decreases again, Weight(des.Net())
    {
      prop.count := 0;
      prop.constants := [];
      ghost var before := des.Net();
      WellformedListed(before);
      ghost var more := prop.FunctorNodes(des);
      TakenTrans(nl, before, des.Net(), steps, more);
      steps := steps + more;
      total := total + prop.count;
      again := prop.count > 0;
      WellformedOrder(des.Net());
    }
    WellformedOrder(des.Net());
    LeftIff(des.Net());
    RotatedDistinct(des.order);
    ConstantIdsAre(des.nodes, Rotated(des.order));
  }

  lemma RotatedDistinct(ids: seq<NodeId>)
    requires NoDuplicates(ids)
    ensures NoDuplicates(Rotated(ids))
  {
  }

  /** Delete the constant if it is only high impedance, or if nothing reads its nexus and
      no net there can be observed. */
  method DeleteDanglingConst(des: Design, obj: NodeId)
    requires des.Valid() && obj in des.nodes && des.nodes[obj].Const? && Out(des.nodes[obj]) in des.nexa
    modifies des
    ensures des.Valid()
    ensures des.Net() ==
      old(if Dangling(des.Net(), obj) then WithoutNode(des.Net(), obj) else des.Net())
  {
    hide Wellformed, WithoutNode;
    var value := des.nodes[obj].value;
    var floating := 0;
    for idx := 0 to |value|
      invariant 0 <= floating <= idx
      invariant floating == idx <==> AllZ(value[..idx])
    {
      assert value[..idx + 1] == value[..idx] + [value[idx]];
      if value[idx] == Vz {
        floating := floating + 1;
      } else {
        assert value[..idx + 1][idx] == value[idx];
      }
    }
    assert value[..|value|] == value;
    if floating == |value| {
      des.DelNode(obj);
      return;
    }
    var nex := des.nodes[obj].out;
    if HasReader(des.Net(), nex) {
      return;
    }
    var nets := des.nexa[nex].nets;
    for idx := 0 to |nets|
      invariant forall i | 0 <= i < idx :: !Observable(nets[i])
    {
      if !nets[idx].local || nets[idx].erefs > 0 || (nets[idx].port != NotAPort && nets[idx].inRoot) {
        assert Observable(nets[idx]);
        return;
      }
    }
    des.DelNode(obj);
  }

  /** Delete those of the collected constants that dangle. */
  method Sweep(des: Design, constants: seq<NodeId>)
    requires des.Valid() && NoDuplicates(constants)
    requires forall id | id in constants :: id in des.nodes && des.nodes[id].Const?
    modifies des
    ensures des.Valid() && des.nexa == old(des.nexa)
    ensures old(forall id | id in des.nodes :: Out(des.nodes[id]) in des.nexa)
    ensures des.nodes == old(des.nodes - set id | id in constants && Dangling(des.Net(), id))
  {
    hide Wellformed, Without, Dangling;
    ghost var nl := des.Net();
    OutsOk(nl);
    ghost var gone: set<NodeId> := {};
    for idx := 0 to |constants|
      invariant des.Valid() && des.nexa == nl.nexa && des.nodes == nl.nodes - gone
      invariant gone == set id | id in constants[..idx] && Dangling(nl, id)
    {
      assert constants[idx] !in constants[..idx];
      RemovalIndependent(nl, des.Net(), gone, constants[idx]);
      DeleteDanglingConst(des, constants[idx]);
      assert constants[..idx + 1] == constants[..idx] + [constants[idx]];
      gone := gone + if Dangling(nl, constants[idx]) then {constants[idx]} else {};
    }
    assert constants[..|constants|] == constants;
  }

  /** Constant propagation: optimize to a fixed point, then drop the dangling constants. The
      steps are those that were made on the way to the netlist `fixed`. */
  method Run(des: Design) returns (total: nat, ghost steps: seq<Step>, ghost fixed: Netlist)
    requires des.Valid()
    modifies des
    ensures des.Valid()
    ensures Taken(old(des.Net()), fixed, steps) && Wellformed(fixed)
    ensures AllExact(steps) ==> SameMeaning(old(des.Net()), fixed, SumFills(steps))
    ensures AllExact(steps) <==> AllHarmless(steps)
    ensures old(Clean(des.Net())) ==> AllExact(steps)
    ensures total == |steps| && total + Weight(fixed) <= old(Weight(des.Net()))
    ensures NothingLeft(fixed) && forall id | id in fixed.nodes :: !CanRewrite(fixed, id)
    ensures des.nexa == fixed.nexa
    ensures forall id | id in fixed.nodes :: Out(fixed.nodes[id]) in fixed.nexa
    ensures des.nodes == map id | id in fixed.nodes && !Dangling(fixed, id) :: fixed.nodes[id]
    ensures forall id | id in fixed.nodes ::
      id !in des.nodes <==>
        fixed.nodes[id].Const? && ((forall b | 0 <= b < |fixed.nodes[id].value| :: fixed.nodes[id].value[b] == Vz)
                                   || !Seen(fixed, Out(fixed.nodes[id])))
    ensures SameOn(fixed, des.Net(), set n | n in fixed.nexa && Seen(fixed, n))
  {
    hide Wellformed, SameMeaning, CanRewrite, Weight, SameOn, Clean, Taken, SumFills, AllExact, NothingLeft, Seen,
      Dangling, LiveNexa, AllHarmless;
    ghost var nl := des.Net();
    var prop := new CpropFunctor();
    total, steps := Propagate(des, prop);
    fixed := des.Net();
    TakenKeeps(nl, fixed, steps);
    TakenApply(nl, fixed, steps);
    OutsOk(fixed);
    SeenIff(fixed);
    Sweep(des, prop.constants);
    RemovalKeepsLive(fixed, des.Net(), set id | id in prop.constants && Dangling(fixed, id));
  }

  lemma OutsOk(nl: Netlist)
    requires Wellformed(nl)
    ensures forall id | id in nl.nodes :: Out(nl.nodes[id]) in nl.nexa
  {
    forall id | id in nl.nodes ensures Out(nl.nodes[id]) in nl.nexa {
      assert NodeOk(nl.nexa, nl.nodes[id]);
    }
  }

  lemma InsertLast(ids: seq<NodeId>, id: NodeId)
    ensures ids[..|ids|] + [id] + ids[|ids|..] == ids + [id]
  {
  }

  lemma MuxOk(nl: Netlist, id: NodeId)
    requires Wellformed(nl) && id in nl.nodes && nl.nodes[id].Mux?
    ensures nl.nodes[id].sel in nl.nexa
  {
    assert NodeOk(nl.nexa, nl.nodes[id]);
    assert nl.nodes[id].sel in Ins(nl.nodes[id]);
  }

  // ----- fusing, one constant at a time

  /** `nl'` is `nl` with filler constants added. */
  ghost predicate Grown(nl: Netlist, nl': Netlist, fills: Valuation) {
    Wellformed(nl') && nl.order <= nl'.order && Filled(nl, nl', fills)
  }

  lemma GrownRefl(nl: Netlist)
    requires Wellformed(nl)
    ensures Grown(nl, nl, map[])
  {
  }

  lemma GrowStep(nl: Netlist, nl': Netlist, fills: Valuation, id: NodeId, k: NexusId, value: Vec, inRoot: bool)
    requires Grown(nl, nl', fills) && id !in nl'.nodes && k !in nl'.nexa && |value| >= 1
    ensures Grown(nl, WithConst(nl', id, k, value, inRoot), fills[k := value])
  {
    hide Wellformed, HoldsConst, FillsHeld, FillNexus, Filled;
    FilledHeld(nl, nl', fills);
    AddConstWellformed(nl', id, k, value, inRoot);
    AddConstHolds(nl', id, k, value, inRoot);
    FillsHeldStep(nl', WithConst(nl', id, k, value, inRoot), fills, k, value);
    FilledStep(nl, nl', fills, id, k, value, inRoot);
  }

  lemma FilledHeld(nl: Netlist, nl': Netlist, fills: Valuation)
    requires Filled(nl, nl', fills)
    ensures FillsHeld(nl', fills)
  {
  }

  lemma FilledStep(nl: Netlist, nl': Netlist, fills: Valuation, id: NodeId, k: NexusId, value: Vec, inRoot: bool)
    requires Filled(nl, nl', fills) && id !in nl'.nodes && k !in nl'.nexa
    requires FillsHeld(WithConst(nl', id, k, value, inRoot), fills[k := value])
    ensures Filled(nl, WithConst(nl', id, k, value, inRoot), fills[k := value])
  {
    hide FillsHeld, FillNexus;
  }

  lemma FillsHeldStep(nl: Netlist, nl': Netlist, fills: Valuation, k: NexusId, value: Vec)
    requires FillsHeld(nl, fills) && HoldsConst(nl', k, value)
    requires forall j, w | HoldsConst(nl, j, w) :: HoldsConst(nl', j, w)
    ensures FillsHeld(nl', fills[k := value])
  {
    hide HoldsConst;
    var fills' := fills[k := value];
    forall j | j in fills' ensures HoldsConst(nl', j, fills'[j]) {
      if j != k {
        assert HoldsConst(nl, j, fills[j]);
      }
    }
  }

  lemma GrownNode(nl: Netlist, nl': Netlist, fills: Valuation, id: NodeId)
    requires Grown(nl, nl', fills) && id in nl.nodes
    ensures id in nl'.nodes && nl'.nodes[id] == nl.nodes[id]
  {
    hide Wellformed, FillsHeld;
  }

  /** With the first `idx` parts done, the pins and fillers still to come complete the lists. */
  ghost predicate PinsSoFar(parts: seq<Node>, idx: nat, off: nat, size: nat, first: NexusId, next: NexusId, bit: V4,
                            pins: seq<NexusId>, fills: Valuation)
    requires AllParts(parts) && idx <= |parts|
  {
    && Tiled(parts[idx..], off, size)
    && pins + Pins(parts[idx..], off, size, next) == Pins(parts, 0, size, first)
    && fills + GapFills(parts[idx..], off, size, next, bit) == GapFills(parts, 0, size, first, bit)
  }

  lemma PinsStart(parts: seq<Node>, size: nat, first: NexusId, bit: V4)
    requires AllParts(parts) && Tiled(parts, 0, size)
    ensures PinsSoFar(parts, 0, 0, size, first, first, bit, [], map[])
  {
    assert parts[0..] == parts;
  }

  lemma PinsStep(parts: seq<Node>, idx: nat, off: nat, size: nat, first: NexusId, next: NexusId, bit: V4,
                 pins: seq<NexusId>, fills: Valuation)
    requires AllParts(parts) && idx < |parts| && PinsSoFar(parts, idx, off, size, first, next, bit, pins, fills)
    ensures parts[idx].base >= off
    ensures parts[idx].base > off ==>
      PinsSoFar(parts, idx + 1, parts[idx].base + parts[idx].width, size, first, next + 1, bit,
                pins + [next] + [parts[idx].part], fills[next := Fill(bit, parts[idx].base - off)])
    ensures parts[idx].base == off ==>
      PinsSoFar(parts, idx + 1, off + parts[idx].width, size, first, next, bit, pins + [parts[idx].part], fills)
  {
    hide Pins, GapFills, Tiled;
    var part, rest := parts[idx], parts[idx + 1..];
    assert parts[idx..] == [part] + rest;
    NextPart(part, rest, off, size, next, bit);
    if part.base > off {
      var fill, fills' := Fill(bit, part.base - off), GapFills(rest, part.base + part.width, size, next + 1, bit);
      var pins' := Pins(rest, part.base + part.width, size, next + 1);
      assert fills + (map[next := fill] + fills') == fills[next := fill] + fills';
      assert pins + ([next, part.part] + pins') == pins + [next] + [part.part] + pins';
    } else {
      var pins' := Pins(rest, part.base + part.width, size, next);
      assert pins + ([part.part] + pins') == pins + [part.part] + pins';
    }
  }

  lemma NextPart(part: Node, rest: seq<Node>, off: nat, size: nat, next: NexusId, bit: V4)
    requires IsPart(part) && AllParts(rest) && AllParts([part] + rest) && Tiled([part] + rest, off, size)
    ensures part.base >= off && Tiled(rest, part.base + part.width, size)
    ensures var end := part.base + part.width;
      if part.base > off then
        && Pins([part] + rest, off, size, next) == [next, part.part] + Pins(rest, end, size, next + 1)
        && GapFills([part] + rest, off, size, next, bit) ==
           map[next := Fill(bit, part.base - off)] + GapFills(rest, end, size, next + 1, bit)
      else
        && Pins([part] + rest, off, size, next) == [part.part] + Pins(rest, end, size, next)
        && GapFills([part] + rest, off, size, next, bit) == GapFills(rest, end, size, next, bit)
  {
    assert ([part] + rest)[1..] == rest;
  }

  lemma PinsEnd(parts: seq<Node>, off: nat, size: nat, first: NexusId, next: NexusId, bit: V4,
                pins: seq<NexusId>, fills: Valuation)
    requires AllParts(parts) && PinsSoFar(parts, |parts|, off, size, first, next, bit, pins, fills)
    ensures off <= size
    ensures Pins(parts, 0, size, first) == if off < size then pins + [next] else pins
    ensures GapFills(parts, 0, size, first, bit) == if off < size then fills[next := Fill(bit, size - off)] else fills
  {
    assert parts[|parts|..] == [];
    assert pins + [] == pins && fills + map[] == fills;
    if off < size {
      assert fills + map[next := Fill(bit, size - off)] == fills[next := Fill(bit, size - off)];
    }
  }

  /** How many components the concatenation is going to need. */
  method CountPins(nl: Netlist, ids: seq<NodeId>, size: nat) returns (partCount: nat)
    requires PartIds(nl.nodes, ids) && (forall id | id in ids :: id in nl.nodes)
    requires Tiled(NodesOf(nl.nodes, ids), 0, size)
    ensures partCount == PinCount(NodesOf(nl.nodes, ids), 0, size)
  {
    ghost var parts := NodesOf(nl.nodes, ids);
    partCount := 0;
    var off: nat := 0;
    assert parts[0..] == parts;
    for idx := 0 to |ids|
      invariant Tiled(parts[idx..], off, size)
      invariant partCount + PinCount(parts[idx..], off, size) == PinCount(parts, 0, size)
    {
      assert parts[idx..][0] == nl.nodes[ids[idx]] && parts[idx..][1..] == parts[idx + 1..];
      if nl.nodes[ids[idx]].base > off {
        off := nl.nodes[ids[idx]].base;
        partCount := partCount + 1;
      }
      off := off + nl.nodes[ids[idx]].width;
      partCount := partCount + 1;
    }
    assert parts[|ids|..] == [];
    if off < size {
      partCount := partCount + 1;
    }
  }

  lemma GrownParts(nl: Netlist, mid: Netlist, fills: Valuation, n: NexusId, ids: seq<NodeId>)
    requires Wellformed(nl) && Grown(nl, mid, fills) && DrivenByParts(nl, n, ids) && PartIds(nl.nodes, ids)
    ensures n in nl.nexa && DrivenByParts(mid, n, ids) && PartIds(mid.nodes, ids)
    ensures NodesOf(mid.nodes, ids) == NodesOf(nl.nodes, ids)
    ensures n !in fills && mid.nexa[n] == nl.nexa[n]
  {
    hide FillsHeld, Wellformed;
    assert forall id | id in mid.nodes && id !in nl.nodes :: Out(mid.nodes[id]) != n;
    assert forall id | id in ids :: id in nl.nodes;
  }

  lemma GrownOrder(nl: Netlist, mid: Netlist, fills: Valuation)
    requires Grown(nl, mid, fills)
    ensures |nl.order| <= |mid.order| && Wellformed(mid) && FillsHeld(mid, fills)
  {
    hide Wellformed, FillsHeld;
  }

  lemma PinsConnect(mid: Netlist, n: NexusId, ids: seq<NodeId>, next: NexusId)
    requires Wellformed(mid) && DrivenByParts(mid, n, ids)
    requires Tiled(NodesOf(mid.nodes, ids), 0, Width(mid.nexa[n]))
    requires FillsHeld(mid, GapFills(NodesOf(mid.nodes, ids), 0, Width(mid.nexa[n]), next, FillBit(mid.nexa[n])))
    ensures NodeOk(mid.nexa, Concat(Width(mid.nexa[n]), false,
                                    Pins(NodesOf(mid.nodes, ids), 0, Width(mid.nexa[n]), next), n))
  {
    var parts := NodesOf(mid.nodes, ids);
    forall i | 0 <= i < |parts|
      ensures parts[i].part in mid.nexa && Width(mid.nexa[parts[i].part]) == parts[i].width
    {
      FusedPartOk(mid, n, ids, i);
    }
    FusedPinsOk(mid, parts, Width(mid.nexa[n]), next, FillBit(mid.nexa[n]));
  }

  /** The netlist once the parts have gone. */
  function FusedNodes(nl: Netlist, mid: Netlist, n: NexusId, ids: seq<NodeId>, next: NexusId, cid: NodeId):
    map<NodeId, Node>
    requires n in nl.nexa && PartIds(nl.nodes, ids) && forall id | id in ids :: id in nl.nodes
  {
    (mid.nodes - (set id | id in ids))[cid :=
      Concat(Width(nl.nexa[n]), false, Pins(NodesOf(nl.nodes, ids), 0, Width(nl.nexa[n]), next), n)]
  }

  lemma FusedHolds(nl: Netlist, mid: Netlist, nl': Netlist, fills: Valuation, n: NexusId, ids: seq<NodeId>, cid: NodeId)
    requires FillsHeld(mid, fills) && n !in fills && cid !in mid.nodes && nl'.nexa == mid.nexa
    requires forall id | id in ids :: id in mid.nodes && Out(mid.nodes[id]) == n
    requires cid in nl'.nodes && Out(nl'.nodes[cid]) == n
    requires forall id | id in nl'.nodes && id != cid :: id in mid.nodes && nl'.nodes[id] == mid.nodes[id]
    requires forall id | id in mid.nodes && id !in ids :: id in nl'.nodes
    ensures FillsHeld(nl', fills)
  {
    forall k | k in fills ensures HoldsConst(nl', k, fills[k]) {
      assert HoldsConst(mid, k, fills[k]);
      var id :| id in mid.nodes && Out(mid.nodes[id]) == k;
      assert id in nl'.nodes && Out(nl'.nodes[id]) == k;
    }
  }

  lemma FusedState(nl: Netlist, mid: Netlist, nl': Netlist, fills: Valuation, n: NexusId, ids: seq<NodeId>,
                   next: NexusId, cid: NodeId)
    requires Wellformed(nl) && Grown(nl, mid, fills) && DrivenByParts(nl, n, ids) && PartIds(nl.nodes, ids)
    requires Tiled(NodesOf(nl.nodes, ids), 0, Width(nl.nexa[n]))
    requires fills == GapFills(NodesOf(nl.nodes, ids), 0, Width(nl.nexa[n]), next, FillBit(nl.nexa[n]))
    requires cid !in mid.nodes && nl'.nexa == mid.nexa && nl'.nodes == FusedNodes(nl, mid, n, ids, next, cid)
    ensures FusedInto(nl, nl', n, ids, next, fills)
  {
    hide Wellformed, Tiled, GapFills, Pins, FillsHeld, Width, FillBit, FusedBy, NodesOf;
    GrownParts(nl, mid, fills, n, ids);
    FusedHolds(nl, mid, nl', fills, n, ids, cid);
    FusedNode(nl, mid, nl', fills, n, ids, next, cid);
  }

  lemma FusedNode(nl: Netlist, mid: Netlist, nl': Netlist, fills: Valuation, n: NexusId, ids: seq<NodeId>,
                  next: NexusId, cid: NodeId)
    requires Grown(nl, mid, fills) && DrivenByParts(nl, n, ids) && PartIds(nl.nodes, ids)
    requires cid !in mid.nodes && nl'.nodes == FusedNodes(nl, mid, n, ids, next, cid)
    ensures FusedBy(nl, nl', n, ids, next, fills, cid)
  {
    hide Wellformed, Pins, FillsHeld, Width, NodesOf;
  }

  // ----- collecting and checking the parts

  /** Are the nets of a nexus all plain wires, and is a 2-state one among them? */
  method PlainNets(nx: Nexus) returns (plain: bool, twoState: bool)
    ensures plain <==> forall i | 0 <= i < |nx.nets| :: nx.nets[i].kind.PlainWire?
    ensures plain ==> (twoState <==> TwoState(nx))
  {
    twoState := false;
    for i := 0 to |nx.nets|
      invariant forall j | 0 <= j < i :: nx.nets[j].kind.PlainWire?
      invariant twoState <==> exists j | 0 <= j < i :: nx.nets[j].isBool
    {
      if nx.nets[i].isBool {
        twoState := true;
      }
      if !nx.nets[i].kind.PlainWire? {
        return false, twoState;
      }
    }
    plain := true;
  }

  /** Scan the links of the nexus that node `obj` drives: is every output link that of a
      part-to-vector select, and is a 2-state net among the nets? */
  method CollectParts(nl: Netlist, obj: NodeId) returns (allParts: bool, twoState: bool, found: seq<NodeId>)
    requires Wellformed(nl) && obj in nl.nodes && IsPart(nl.nodes[obj])
    ensures var n := nl.nodes[obj].vec;
      && n in nl.nexa
      && (allParts <==> && (forall i | 0 <= i < |nl.nexa[n].nets| :: nl.nexa[n].nets[i].kind.PlainWire?)
                        && forall id | id in Drivers(nl.nodes, nl.order, n) :: IsPart(nl.nodes[id]))
      && (allParts ==> found == Drivers(nl.nodes, nl.order, n) && (twoState <==> TwoState(nl.nexa[n])))
  {
    var n := nl.nodes[obj].vec;
    PartVec(nl, obj);
    hide *;
    found := [];
    allParts, twoState := PlainNets(nl.nexa[n]);
    if !allParts {
      return;
    }
    var order := nl.order;
    NothingFound(nl, n);
    for i := 0 to |order|
      invariant found == Drivers(nl.nodes, order[..i], n) && PartIds(nl.nodes, found)
    {
      DriversSnoc(nl.nodes, order, i, n);
      if Out(nl.nodes[order[i]]) == n {
        if !IsPart(nl.nodes[order[i]]) {
          DriverAt(nl.nodes, order, i, n);
          return false, twoState, found;
        }
        PartsSnoc(nl.nodes, found, order[i]);
        found := found + [order[i]];
      }
    }
    assert order[..|order|] == order;
    PartsAll(nl.nodes, found);
  }

  lemma DriverAt(nodes: map<NodeId, Node>, ids: seq<NodeId>, i: nat, n: NexusId)
    requires i < |ids| && (forall id | id in ids :: id in nodes) && Out(nodes[ids[i]]) == n
    ensures ids[i] in Drivers(nodes, ids, n)
  {
    hide Drivers;
    DriversAre(nodes, ids, n);
  }

  lemma NothingFound(nl: Netlist, n: NexusId)
    ensures Drivers(nl.nodes, nl.order[..0], n) == [] && PartIds(nl.nodes, [])
  {
  }

  lemma PartsSnoc(nodes: map<NodeId, Node>, ids: seq<NodeId>, id: NodeId)
    requires PartIds(nodes, ids) && id in nodes && IsPart(nodes[id])
    ensures PartIds(nodes, ids + [id])
  {
  }

  lemma PartsAll(nodes: map<NodeId, Node>, ids: seq<NodeId>)
    requires PartIds(nodes, ids)
    ensures forall id | id in ids :: id in nodes && IsPart(nodes[id])
  {
  }

  lemma PartVec(nl: Netlist, obj: NodeId)
    requires Wellformed(nl) && obj in nl.nodes && IsPart(nl.nodes[obj])
    ensures nl.nodes[obj].vec in nl.nexa && Listed(nl) && forall id | id in nl.order :: id in nl.nodes
  {
    assert NodeOk(nl.nexa, nl.nodes[obj]);
  }

  lemma DriversSnoc(nodes: map<NodeId, Node>, ids: seq<NodeId>, i: nat, n: NexusId)
    requires i < |ids| && forall id | id in ids :: id in nodes
    ensures forall id | id in ids[..i + 1] :: id in nodes
    ensures Drivers(nodes, ids[..i + 1], n) ==
      Drivers(nodes, ids[..i], n) + if Out(nodes[ids[i]]) == n then [ids[i]] else []
    decreases i
  {
    hide Drivers;
    assert ids[..i + 1][0] == ids[0];
    DriversFirst(nodes, ids[..i + 1], n);
    if i == 0 {
      NoDrivers(nodes, n);
      assert ids[..1][1..] == [] && ids[..0] == [];
    } else {
      assert ids[..i][0] == ids[0];
      DriversFirst(nodes, ids[..i], n);
      DriversSnoc(nodes, ids[1..], i - 1, n);
      assert ids[..i + 1][1..] == ids[1..][..i] && ids[..i][1..] == ids[1..][..i - 1];
    }
  }

  lemma NoDrivers(nodes: map<NodeId, Node>, n: NexusId)
    ensures Drivers(nodes, [], n) == []
  {
  }

  lemma DriversFirst(nodes: map<NodeId, Node>, ids: seq<NodeId>, n: NexusId)
    requires ids != [] && forall id | id in ids :: id in nodes
    ensures Drivers(nodes, ids, n) == (if Out(nodes[ids[0]]) == n then [ids[0]] else []) + Drivers(nodes, ids[1..], n)
  {
  }

  lemma FusionExact(nl: Netlist, obj: NodeId)
    requires Wellformed(nl) && obj in nl.nodes && IsPart(nl.nodes[obj]) && CanFuse(nl, nl.nodes[obj].vec)
    requires PartIds(nl.nodes, Drivers(nl.nodes, nl.order, nl.nodes[obj].vec))
    ensures var n := nl.nodes[obj].vec;
      StepExact(nl, obj) <==>
      FillsHarmlessly(nl, n, NodesOf(nl.nodes, SortByBase(nl.nodes, Drivers(nl.nodes, nl.order, n))))
  {
    hide CanFuse, FillsHarmlessly, SortByBase, Wellformed;
    WellformedListed(nl);
  }

  /** Neighbours in base order do not overlap, and the last part ends within the vector. */
  method NoOverlaps(nl: Netlist, ids: seq<NodeId>, size: nat) returns (fits: bool)
    requires ids != [] && PartIds(nl.nodes, ids) && forall id | id in ids :: id in nl.nodes
    ensures fits <==> Tiled(NodesOf(nl.nodes, ids), 0, size)
  {
    ghost var parts := NodesOf(nl.nodes, ids);
    TiledByNeighbours(parts, 0, size);
    for idx := 1 to |ids|
      invariant forall i | 1 <= i < idx :: parts[i - 1].base + parts[i - 1].width <= parts[i].base
    {
      var top := nl.nodes[ids[idx - 1]].base + nl.nodes[ids[idx - 1]].width;
      if top > nl.nodes[ids[idx]].base {
        assert parts[idx - 1].base + parts[idx - 1].width > parts[idx].base;
        return false;
      }
    }
    var last := nl.nodes[ids[|ids| - 1]];
    fits := last.base + last.width <= size;
  }

  /** The sorted parts are tiled exactly when they are pairwise apart and inside the vector. */
  lemma FusableIffFits(nl: Netlist, n: NexusId, ids: seq<NodeId>)
    requires Wellformed(nl) && DrivenByParts(nl, n, ids)
    requires NoDuplicates(ids) && PartIds(nl.nodes, ids) && SortedByBase(nl.nodes, ids)
    requires |ids| == |Drivers(nl.nodes, nl.order, n)| >= if TwoState(nl.nexa[n]) then 1 else 2
    ensures CanFuse(nl, n) <==> Tiled(NodesOf(nl.nodes, ids), 0, Width(nl.nexa[n]))
  {
    hide Tiled;
    DriversAre(nl.nodes, nl.order, n);
    assert forall id :: id in Drivers(nl.nodes, nl.order, n) <==> id in ids;
    if Tiled(NodesOf(nl.nodes, ids), 0, Width(nl.nexa[n])) {
      TiledIdsApart(nl.nodes, ids, Width(nl.nexa[n]));
    } else if CanFuse(nl, n) {
      forall id | id in ids ensures nl.nodes[id].width >= 1 {
        PartWide(nl, id);
      }
      ApartIdsTiled(nl.nodes, ids, Width(nl.nexa[n]));
    }
  }

  lemma TiledIdsApart(nodes: map<NodeId, Node>, ids: seq<NodeId>, size: nat)
    requires ids != [] && PartIds(nodes, ids) && (forall id | id in ids :: id in nodes && IsPart(nodes[id]))
    requires Tiled(NodesOf(nodes, ids), 0, size)
    ensures forall d, e | d in ids && e in ids && d != e :: Apart(nodes[d], nodes[e])
    ensures forall d | d in ids :: nodes[d].base + nodes[d].width <= size
  {
    hide Tiled;
    var parts := NodesOf(nodes, ids);
    forall d, e | d in ids && e in ids && d != e ensures Apart(nodes[d], nodes[e]) {
      var i: nat :| i < |ids| && ids[i] == d;
      var j: nat :| j < |ids| && ids[j] == e;
      if i < j {
        TiledApart(parts, 0, size, i, j);
      } else {
        TiledApart(parts, 0, size, j, i);
      }
    }
    TiledByNeighbours(parts, 0, size);
    forall d | d in ids ensures nodes[d].base + nodes[d].width <= size {
      var i: nat :| i < |ids| && ids[i] == d;
      if i + 1 < |ids| {
        TiledApart(parts, 0, size, i, |ids| - 1);
      }
    }
  }

  lemma ApartIdsTiled(nodes: map<NodeId, Node>, ids: seq<NodeId>, size: nat)
    requires ids != [] && PartIds(nodes, ids) && (forall id | id in ids :: id in nodes && IsPart(nodes[id]))
    requires NoDuplicates(ids) && SortedByBase(nodes, ids) && forall id | id in ids :: nodes[id].width >= 1
    requires forall d, e | d in ids && e in ids && d != e :: Apart(nodes[d], nodes[e])
    requires forall d | d in ids :: nodes[d].base + nodes[d].width <= size
    ensures Tiled(NodesOf(nodes, ids), 0, size)
  {
    hide Tiled;
    var parts := NodesOf(nodes, ids);
    TiledByNeighbours(parts, 0, size);
    forall i | 1 <= i < |parts| ensures parts[i - 1].base + parts[i - 1].width <= parts[i].base {
      assert ids[i - 1] in ids && ids[i] in ids && ids[i - 1] != ids[i];
      assert Apart(nodes[ids[i - 1]], nodes[ids[i]]);
    }
    assert ids[|ids| - 1] in ids;
  }

  /** Only part selects drive the nexus, and enough of them. */
  lemma CanFuseParts(nl: Netlist, n: NexusId)
    requires Wellformed(nl) && CanFuse(nl, n)
    ensures forall i | 0 <= i < |nl.nexa[n].nets| :: nl.nexa[n].nets[i].kind.PlainWire?
    ensures forall id | id in Drivers(nl.nodes, nl.order, n) :: IsPart(nl.nodes[id])
    ensures |Drivers(nl.nodes, nl.order, n)| >= if TwoState(nl.nexa[n]) then 1 else 2
  {
  }

  lemma PartWide(nl: Netlist, id: NodeId)
    requires Wellformed(nl) && id in nl.nodes && IsPart(nl.nodes[id])
    ensures nl.nodes[id].width >= 1
  {
    assert NodeOk(nl.nexa, nl.nodes[id]);
    assert nl.nodes[id].part in Ins(nl.nodes[id]);
    SelectWidth(nl, nl.nodes[id].part);
  }

  lemma JoinNext(nl: Netlist, ins: seq<NexusId>, idx: nat, width: nat)
    requires Wellformed(nl) && idx < |ins| && AllConstant(nl, ins[..idx]) && (forall n | n in ins :: n in nl.nexa)
    requires DriversConstant(nl, ins[idx]) && SumWidths(nl.nexa, ins) <= width
    ensures AllConstant(nl, ins[..idx + 1])
    ensures Join(DrivenVectors(nl, ins[..idx + 1])) ==
      Join(DrivenVectors(nl, ins[..idx])) + DrivenVector(nl, ins[idx])
    ensures SumWidths(nl.nexa, ins[..idx + 1]) == SumWidths(nl.nexa, ins[..idx]) + |DrivenVector(nl, ins[idx])|
    ensures SumWidths(nl.nexa, ins[..idx + 1]) <= width
  {
    hide Wellformed, DriversConstant, DrivenVector, DrivenVectors, Join, SumWidths;
    WellformedListed(nl);
    assert ins[..idx + 1] == ins[..idx] + [ins[idx]];
    DrivenWidth(nl, ins[idx]);
    JoinSnoc(nl, ins[..idx], ins[idx]);
    assert ins == ins[..idx + 1] + ins[idx + 1..];
    SumWidthsAppend(nl.nexa, ins[..idx + 1], ins[idx + 1..]);
  }

  lemma {:induction false} SumWidthsAppend(nexa: map<NexusId, Nexus>, p: seq<NexusId>, q: seq<NexusId>)
    requires forall n | n in p + q :: n in nexa
    ensures (forall n | n in p :: n in nexa) && (forall n | n in q :: n in nexa)
    ensures SumWidths(nexa, p + q) == SumWidths(nexa, p) + SumWidths(nexa, q)
  {
    assert forall n | n in p :: n in p + q;
    assert forall n | n in q :: n in p + q;
    if p == [] {
      assert p + q == q;
    } else {
      assert (p + q)[1..] == p[1..] + q;
      SumWidthsAppend(nexa, p[1..], q);
    }
  }

  lemma {:induction false} JoinSnoc(nl: Netlist, ins: seq<NexusId>, n: NexusId)
    requires Wellformed(nl) && AllConstant(nl, ins) && n in nl.nexa && DriversConstant(nl, n)
    ensures AllConstant(nl, ins + [n])
    ensures Join(DrivenVectors(nl, ins + [n])) == Join(DrivenVectors(nl, ins)) + DrivenVector(nl, n)
    ensures SumWidths(nl.nexa, ins + [n]) == SumWidths(nl.nexa, ins) + Width(nl.nexa[n])
  {
    hide DriversConstant, DrivenVector, Wellformed;
    WellformedListed(nl);
    if ins == [] {
      assert ins + [n] == [n];
      assert DrivenVectors(nl, [n]) == [DrivenVector(nl, n)];
      assert Join([DrivenVector(nl, n)]) == DrivenVector(nl, n) + [];
    } else {
      assert (ins + [n])[1..] == ins[1..] + [n];
      assert AllConstant(nl, ins[1..]);
      JoinSnoc(nl, ins[1..], n);
    }
  }
}
