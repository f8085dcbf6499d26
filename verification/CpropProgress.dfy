/** What each optimization step keeps and what it uses up. */
module CpropProgress {
  import opened FourState
  import opened Netlists
  import opened Rewriting
  import opened ConstantRules
  import opened FusionRule

  // ----- the measure

  ghost function Parts(nodes: map<NodeId, Node>): set<NodeId> {
    set id | id in nodes && IsPart(nodes[id])
  }

  ghost function Concats(nodes: map<NodeId, Node>): set<NodeId> {
    set id | id in nodes && nodes[id].Concat?
  }

  ghost function Muxes(nodes: map<NodeId, Node>): set<NodeId> {
    set id | id in nodes && nodes[id].Mux?
  }

  /** Fusing k >= 1 parts costs 2k and adds one concatenation; the other steps remove one
      concatenation or one mux. */
  ghost function Weight(nl: Netlist): nat {
    2 * |Parts(nl.nodes)| + |Concats(nl.nodes)| + |Muxes(nl.nodes)|
  }

  lemma ReplacedWeight(nl: Netlist, id: NodeId, id': NodeId, node: Node)
    requires id in nl.nodes && id' !in nl.nodes && (node.Const? || node.Bufz?)
    requires nl.nodes[id].Concat? || nl.nodes[id].Mux?
    ensures Weight(Replaced(nl, id, id', node)) + 1 == Weight(nl)
  {
    var nodes, nodes' := nl.nodes, (nl.nodes - {id})[id' := node];
    assert Replaced(nl, id, id', node).nodes == nodes';
    ReplacedSets(nodes, id, id', node);
    assert id in Concats(nodes) <==> id !in Muxes(nodes);
    hide Parts, Concats, Muxes, Replaced;
  }

  lemma ReplacedSets(nodes: map<NodeId, Node>, id: NodeId, id': NodeId, node: Node)
    requires id in nodes && id' !in nodes && (node.Const? || node.Bufz?) && (nodes[id].Concat? || nodes[id].Mux?)
    ensures var nodes' := (nodes - {id})[id' := node];
      Parts(nodes') == Parts(nodes) && Concats(nodes') == Concats(nodes) - {id} && Muxes(nodes') == Muxes(nodes) - {id}
  {
  }

  lemma FusedWeight(nodes: map<NodeId, Node>, ids: set<NodeId>, cid: NodeId, concat: Node)
    requires cid !in nodes && concat.Concat? && ids != {}
    requires forall id | id in ids :: id in nodes && IsPart(nodes[id])
    ensures var nodes' := (nodes - ids)[cid := concat];
      && |Parts(nodes')| == |Parts(nodes)| - |ids|
      && |Concats(nodes')| == |Concats(nodes)| + 1
      && |Muxes(nodes')| == |Muxes(nodes)|
  {
    var nodes' := (nodes - ids)[cid := concat];
    assert Parts(nodes') == Parts(nodes) - ids && ids <= Parts(nodes);
    assert Concats(nodes') == Concats(nodes) + {cid};
    assert Muxes(nodes') == Muxes(nodes);
  }

  // ----- the side condition

  /** A driver that no step ever turns into an undefined constant. */
  predicate Lasting(node: Node) {
    || node.Gate? || node.Bufz? || node.Mux?
    || (node.Select? && node.dir == VP)
    || (node.Const? && IsDefined(node.value))
  }

  /** The nexus never carries an undefined constant. */
  ghost predicate Steady(nl: Netlist, n: NexusId)
    requires n in nl.nexa
  {
    || External(nl.nexa[n])
    || PullCount(nl.nexa[n].nets) > 0
    || exists id :: id in nl.nodes && Out(nl.nodes[id]) == n && Lasting(nl.nodes[id])
  }

  /** A node that may come to hand its inputs to a folded constant. */
  predicate Joins(node: Node) {
    (node.Concat? && !node.transparent) || IsPart(node)
  }

  ghost predicate OnlyWires(nx: Nexus) {
    forall i | 0 <= i < |nx.nets| :: nx.nets[i].kind.PlainWire?
  }

  ghost predicate Feeds(nl: Netlist, n: NexusId) {
    exists id :: id in nl.nodes && Joins(nl.nodes[id]) && n in Ins(nl.nodes[id])
  }

  ghost predicate PartDriven(nl: Netlist, n: NexusId) {
    exists id :: id in nl.nodes && IsPart(nl.nodes[id]) && nl.nodes[id].vec == n
  }

  /** A 2-state nexus is steady if it feeds a concatenation or a part select; and it is not a
      mere wire that both part selects and the outside of the node list drive. */
  ghost predicate CleanAt(nl: Netlist, n: NexusId)
    requires n in nl.nexa
  {
    TwoState(nl.nexa[n]) ==>
      && (Feeds(nl, n) ==> Steady(nl, n))
      && !(PartDriven(nl, n) && External(nl.nexa[n]) && OnlyWires(nl.nexa[n]))
  }

  /** Under this condition every step is exact, and every step keeps it. */
  ghost predicate Clean(nl: Netlist) {
    forall n | n in nl.nexa :: CleanAt(nl, n)
  }

  lemma SteadyDefined(nl: Netlist, n: NexusId)
    requires Wellformed(nl) && n in nl.nexa && DriversConstant(nl, n) && Steady(nl, n)
    ensures IsDefined(DrivenVector(nl, n))
  {
    DriversAre(nl.nodes, nl.order, n);
    PullsCounted(nl.nexa[n].nets);
    var drivers := Drivers(nl.nodes, nl.order, n);
    if drivers != [] {
      var id :| id in nl.nodes && Out(nl.nodes[id]) == n && Lasting(nl.nodes[id]);
      OneDriver(drivers);
      assert id == drivers[0];
    }
  }

  lemma CleanFolds(nl: Netlist, id: NodeId)
    requires Wellformed(nl) && Clean(nl) && CanFold(nl, id)
    ensures FoldsExactly(nl, nl.nodes[id].ins)
  {
    hide DriversConstant, DrivenVector, Steady, TwoState, External;
    WellformedListed(nl);
    var ins := nl.nodes[id].ins;
    forall n | n in ins && TwoState(nl.nexa[n]) ensures IsDefined(DrivenVector(nl, n)) {
      assert Joins(nl.nodes[id]) && n in Ins(nl.nodes[id]);
      assert Feeds(nl, n) && CleanAt(nl, n);
      SteadyDefined(nl, n);
    }
  }

  lemma CleanFuses(nl: Netlist, n: NexusId, ids: seq<NodeId>)
    requires Clean(nl) && DrivenByParts(nl, n, ids) && ids != []
    ensures FillsHarmlessly(nl, n, NodesOf(nl.nodes, ids))
  {
    hide Steady, TwoState, External;
    assert ids[0] in ids && nl.nodes[ids[0]].vec == n;
    assert PartDriven(nl, n) && OnlyWires(nl.nexa[n]) && CleanAt(nl, n);
  }

  /** What keeps a nexus clean: the same nets, a lasting driver as long as there was one, and
      no new joining or part-selecting node. */
  ghost predicate KeptAt(nl: Netlist, nl': Netlist, n: NexusId) {
    && n in nl.nexa && n in nl'.nexa && nl'.nexa[n] == nl.nexa[n]
    && (Steady(nl, n) ==> Steady(nl', n))
    && (Feeds(nl', n) ==> Feeds(nl, n))
    && (PartDriven(nl', n) ==> PartDriven(nl, n))
  }

  lemma CleanKept(nl: Netlist, nl': Netlist)
    requires Clean(nl)
    requires forall n | n in nl'.nexa && TwoState(nl'.nexa[n]) :: KeptAt(nl, nl', n)
    ensures Clean(nl')
  {
    hide Steady, Feeds, PartDriven, TwoState, External, OnlyWires;
    forall n | n in nl'.nexa && TwoState(nl'.nexa[n]) ensures CleanAt(nl', n) {
      assert CleanAt(nl, n);
    }
  }

  /** There is no new joining node. */
  lemma FeedsKept(nl: Netlist, nl': Netlist, n: NexusId)
    requires forall m | m in nl'.nodes && Joins(nl'.nodes[m]) :: m in nl.nodes && nl.nodes[m] == nl'.nodes[m]
    ensures Feeds(nl', n) ==> Feeds(nl, n)
  {
    hide Joins;
    if m :| m in nl'.nodes && Joins(nl'.nodes[m]) && n in Ins(nl'.nodes[m]) {
      assert m in nl.nodes && Joins(nl.nodes[m]) && n in Ins(nl.nodes[m]);
    }
  }

  lemma PartsKept(nl: Netlist, nl': Netlist, n: NexusId)
    requires forall m | m in nl'.nodes && IsPart(nl'.nodes[m]) :: m in nl.nodes && nl.nodes[m] == nl'.nodes[m]
    ensures PartDriven(nl', n) ==> PartDriven(nl, n)
  {
    if m :| m in nl'.nodes && IsPart(nl'.nodes[m]) && nl'.nodes[m].vec == n {
      assert m in nl.nodes && IsPart(nl.nodes[m]) && nl.nodes[m].vec == n;
    }
  }

  /** Every lasting driver stays where it is. */
  lemma SteadyKept(nl: Netlist, nl': Netlist, n: NexusId)
    requires n in nl.nexa && n in nl'.nexa && nl'.nexa[n] == nl.nexa[n]
    requires forall m | m in nl.nodes && Lasting(nl.nodes[m]) :: m in nl'.nodes && nl'.nodes[m] == nl.nodes[m]
    ensures Steady(nl, n) ==> Steady(nl', n)
  {
    hide External, PullCount;
    if m :| m in nl.nodes && Out(nl.nodes[m]) == n && Lasting(nl.nodes[m]) {
      assert m in nl'.nodes && Out(nl'.nodes[m]) == n && Lasting(nl'.nodes[m]);
    }
  }

  /** Some step applies at node `id`. */
  ghost predicate CanRewrite(nl: Netlist, id: NodeId)
    requires Listed(nl)
  {
    || CanFold(nl, id)
    || CanBypass(nl, id)
    || (id in nl.nodes && IsPart(nl.nodes[id]) && CanFuse(nl, nl.nodes[id].vec))
  }

  /** The step at node `id` loses nothing: a fold reads no unknown or floating constant through
      a 2-state net, and a fusion fills no gap of a 2-state net that is driven from outside. */
  ghost predicate StepExact(nl: Netlist, id: NodeId)
    requires Listed(nl)
  {
    && (CanFold(nl, id) ==> FoldsExactly(nl, nl.nodes[id].ins))
    && (id in nl.nodes && IsPart(nl.nodes[id]) && CanFuse(nl, nl.nodes[id].vec) ==>
          FillsHarmlessly(nl, nl.nodes[id].vec, FusedParts(nl, nl.nodes[id].vec)))
  }

  /** The part selects that a fusion at nexus `n` replaces, in base order. */
  ghost function FusedIds(nl: Netlist, n: NexusId): (r: seq<NodeId>)
    requires Listed(nl) && CanFuse(nl, n)
    ensures PartIds(nl.nodes, r)
  {
    SortByBase(nl.nodes, Drivers(nl.nodes, nl.order, n))
  }

  ghost function FusedParts(nl: Netlist, n: NexusId): (r: seq<Node>)
    requires Listed(nl) && CanFuse(nl, n)
    ensures AllParts(r)
  {
    NodesOf(nl.nodes, FusedIds(nl, n))
  }

  /** What one counted optimization does to the netlist; `exact` says that it loses nothing. */
  ghost predicate Improves(nl: Netlist, nl': Netlist, fills: Valuation, exact: bool) {
    && Wellformed(nl')
    && Weight(nl') < Weight(nl)
    && (exact ==> SameMeaning(nl, nl', fills))
    && (Clean(nl) ==> exact && Clean(nl'))
  }

  lemma FoldImproves(nl: Netlist, id: NodeId, id': NodeId)
    requires Wellformed(nl) && CanFold(nl, id) && id' !in nl.nodes
    ensures NodeOk(nl.nexa, Const(Folded(nl, nl.nodes[id]), nl.nodes[id].out))
    ensures Improves(nl, Replaced(nl, id, id', Const(Folded(nl, nl.nodes[id]), nl.nodes[id].out)), map[],
                     FoldsExactly(nl, nl.nodes[id].ins))
  {
    hide Folded, DriversConstant, DrivenVector, SameMeaning, Weight, Clean, TwoState;
    WellformedListed(nl);
    var node := nl.nodes[id];
    var folded := Const(Folded(nl, node), node.out);
    assert Ins(node) == node.ins;
    FoldedOk(nl, id);
    ReplacedWellformed(nl, id, id', folded);
    if FoldsExactly(nl, node.ins) {
      FoldKeepsMeaning(nl, id, id');
    }
    ReplacedWeight(nl, id, id', folded);
    if Clean(nl) {
      CleanFolds(nl, id);
      ReplacedClean(nl, id, id', folded);
    }
  }

  lemma FoldedOk(nl: Netlist, id: NodeId)
    requires Wellformed(nl) && CanFold(nl, id)
    ensures NodeOk(nl.nexa, Const(Folded(nl, nl.nodes[id]), nl.nodes[id].out))
  {
    var node := nl.nodes[id];
    assert NodeOk(nl.nexa, node);
    JoinedWidth(nl, node.ins);
  }

  lemma ReplacedClean(nl: Netlist, id: NodeId, id': NodeId, node: Node)
    requires Clean(nl) && id in nl.nodes && id' !in nl.nodes && Out(node) == Out(nl.nodes[id])
    requires (nl.nodes[id].Concat? && node.Const?) || (nl.nodes[id].Mux? && node.Bufz?)
    ensures Clean(Replaced(nl, id, id', node))
  {
    hide Clean, Without, TwoState;
    var nl' := Replaced(nl, id, id', node);
    forall n | n in nl'.nexa && TwoState(nl'.nexa[n]) ensures KeptAt(nl, nl', n) {
      ReplacedAt(nl, id, id', node, n);
    }
    CleanKept(nl, nl');
  }

  lemma ReplacedAt(nl: Netlist, id: NodeId, id': NodeId, node: Node, n: NexusId)
    requires n in nl.nexa && id in nl.nodes && id' !in nl.nodes && Out(node) == Out(nl.nodes[id])
    requires (nl.nodes[id].Concat? && node.Const?) || (nl.nodes[id].Mux? && node.Bufz?)
    ensures KeptAt(nl, Replaced(nl, id, id', node), n)
  {
    hide Without, External, PullCount;
    var nl' := Replaced(nl, id, id', node);
    if m :| m in nl.nodes && Out(nl.nodes[m]) == n && Lasting(nl.nodes[m]) {
      var m' := if m == id then id' else m;
      assert m' in nl'.nodes && Out(nl'.nodes[m']) == n && Lasting(nl'.nodes[m']);
    }
    FeedsKept(nl, nl', n);
    PartsKept(nl, nl', n);
  }

  lemma BypassImproves(nl: Netlist, id: NodeId, id': NodeId)
    requires Wellformed(nl) && CanBypass(nl, id) && id' !in nl.nodes
    ensures Improves(nl, Replaced(nl, id, id', Bypass(nl, id)), map[], true)
  {
    hide SameMeaning, Weight, DriversConstant, Clean;
    BypassKeepsMeaning(nl, id, id');
    ReplacedWeight(nl, id, id', Bypass(nl, id));
    if Clean(nl) {
      ReplacedClean(nl, id, id', Bypass(nl, id));
    }
  }

  /** Filler constants keep the netlist clean and cost nothing. */
  lemma FilledClean(nl: Netlist, nl': Netlist, fills: Valuation)
    requires Clean(nl) && Filled(nl, nl', fills)
    ensures Clean(nl')
  {
    hide Clean, TwoState, KeptAt;
    forall n | n in nl'.nexa && TwoState(nl'.nexa[n]) ensures KeptAt(nl, nl', n) {
      if n in fills {
        assert HoldsConst(nl', n, fills[n]);
        FillIsFourState(nl', n, fills[n]);
      } else {
        FilledAt(nl, nl', fills, n);
      }
    }
    CleanKept(nl, nl');
  }

  lemma FillIsFourState(nl: Netlist, n: NexusId, value: Vec)
    requires HoldsConst(nl, n, value)
    ensures !TwoState(nl.nexa[n])
  {
  }

  lemma FilledAt(nl: Netlist, nl': Netlist, fills: Valuation, n: NexusId)
    requires Filled(nl, nl', fills) && n in nl.nexa
    ensures KeptAt(nl, nl', n)
  {
    hide FillsHeld, Steady, Feeds, PartDriven;
    SteadyKept(nl, nl', n);
    FeedsKept(nl, nl', n);
    PartsKept(nl, nl', n);
  }

  lemma FilledWeight(nl: Netlist, nl': Netlist, fills: Valuation)
    requires Filled(nl, nl', fills)
    ensures Weight(nl') == Weight(nl)
  {
    hide FillsHeld;
    assert Parts(nl'.nodes) == Parts(nl.nodes);
    assert Concats(nl'.nodes) == Concats(nl.nodes);
    assert Muxes(nl'.nodes) == Muxes(nl.nodes);
  }

  lemma {:induction false} PinsAre(parts: seq<Node>, off: nat, size: nat, next: NexusId, bit: V4)
    requires AllParts(parts)
    ensures forall k | k in Pins(parts, off, size, next) ::
      k in GapFills(parts, off, size, next, bit) || exists i | 0 <= i < |parts| :: k == parts[i].part
  {
    if parts != [] {
      var rest, end := parts[1..], parts[0].base + parts[0].width;
      var next' := if parts[0].base > off then next + 1 else next;
      PinsAre(rest, end, size, next', bit);
      forall k | k in Pins(parts, off, size, next)
        ensures k in GapFills(parts, off, size, next, bit) || exists i | 0 <= i < |parts| :: k == parts[i].part
      {
        if k != parts[0].part && k in Pins(rest, end, size, next') && k !in GapFills(rest, end, size, next', bit) {
          var i :| 0 <= i < |rest| && k == rest[i].part;
          assert parts[i + 1].part == k;
        }
      }
    }
  }

  /** The pin widths add up to the signal width. */
  lemma {:induction false} PinWidths(nexa: map<NexusId, Nexus>, parts: seq<Node>, off: nat, size: nat,
                                     next: NexusId, bit: V4, fills: Valuation)
    requires AllParts(parts) && Tiled(parts, off, size) && GapsHold(parts, off, size, next, bit, fills)
    requires forall k | k in fills :: k in nexa && Width(nexa[k]) == |fills[k]|
    requires forall i | 0 <= i < |parts| :: parts[i].part in nexa && Width(nexa[parts[i].part]) == parts[i].width
    ensures forall k | k in Pins(parts, off, size, next) :: k in nexa
    ensures SumWidths(nexa, Pins(parts, off, size, next)) == size - off
  {
    hide Tiled, Pins, GapsHold, Laid, SumWidths;
    if parts == [] {
      LastWidth(nexa, off, size, next, bit, fills);
    } else {
      var part, rest, end := parts[0], parts[1..], parts[0].base + parts[0].width;
      var next' := if part.base > off then next + 1 else next;
      NextLaid(parts, off, size, next, bit, fills);
      TiledFits(rest, end, size);
      assert forall i | 0 <= i < |rest| :: rest[i] == parts[i + 1];
      PinWidths(nexa, rest, end, size, next', bit, fills);
      var tail := Pins(rest, end, size, next');
      SumOne(nexa, part.part, tail);
      if part.base > off {
        FirstGap(parts, off, size, next, bit, fills);
        SumOne(nexa, next, [part.part] + tail);
        assert [next, part.part] + tail == [next] + ([part.part] + tail);
      }
    }
  }

  lemma LastWidth(nexa: map<NexusId, Nexus>, off: nat, size: nat, next: NexusId, bit: V4, fills: Valuation)
    requires Tiled([], off, size) && GapsHold([], off, size, next, bit, fills)
    requires forall k | k in fills :: k in nexa && Width(nexa[k]) == |fills[k]|
    ensures forall k | k in Pins([], off, size, next) :: k in nexa
    ensures SumWidths(nexa, Pins([], off, size, next)) == size - off
  {
    if off < size {
      assert |Get(fills, next)| == size - off;
      assert [next][1..] == [];
    }
  }

  lemma FirstGap(parts: seq<Node>, off: nat, size: nat, next: NexusId, bit: V4, fills: Valuation)
    requires AllParts(parts) && parts != [] && parts[0].base > off && GapsHold(parts, off, size, next, bit, fills)
    ensures next in fills && |fills[next]| == parts[0].base - off
  {
    assert |Get(fills, next)| == parts[0].base - off;
  }

  lemma SumOne(nexa: map<NexusId, Nexus>, n: NexusId, rest: seq<NexusId>)
    requires n in nexa && forall k | k in rest :: k in nexa
    ensures forall k | k in [n] + rest :: k in nexa
    ensures SumWidths(nexa, [n] + rest) == Width(nexa[n]) + SumWidths(nexa, rest)
  {
    assert ([n] + rest)[1..] == rest;
  }

  lemma FusedPartOk(nl: Netlist, n: NexusId, ids: seq<NodeId>, i: nat)
    requires Wellformed(nl) && DrivenByParts(nl, n, ids) && i < |ids|
    ensures var part := NodesOf(nl.nodes, ids)[i];
      part.part in nl.nexa && Width(nl.nexa[part.part]) == part.width
  {
    assert ids[i] in ids && NodeOk(nl.nexa, nl.nodes[ids[i]]);
    assert nl.nodes[ids[i]].part in Ins(nl.nodes[ids[i]]);
  }

  lemma FusedPinsOk(nl: Netlist, parts: seq<Node>, size: nat, next: NexusId, bit: V4)
    requires AllParts(parts) && Tiled(parts, 0, size)
    requires forall i | 0 <= i < |parts| ::
      parts[i].part in nl.nexa && Width(nl.nexa[parts[i].part]) == parts[i].width
    requires FillsHeld(nl, GapFills(parts, 0, size, next, bit))
    ensures forall k | k in Pins(parts, 0, size, next) :: k in nl.nexa
    ensures forall k | k in Pins(parts, 0, size, next) && TwoState(nl.nexa[k]) ::
      exists i | 0 <= i < |parts| :: k == parts[i].part
    ensures SumWidths(nl.nexa, Pins(parts, 0, size, next)) == size
  {
    var fills := GapFills(parts, 0, size, next, bit);
    forall k | k in fills ensures k in nl.nexa && Width(nl.nexa[k]) == |fills[k]| && !TwoState(nl.nexa[k]) {
      assert HoldsConst(nl, k, fills[k]);
    }
    FillsHoldGaps(parts, 0, size, next, bit, fills);
    PinWidths(nl.nexa, parts, 0, size, next, bit, fills);
    PinsAre(parts, 0, size, next, bit);
  }

  lemma FusedConcatOk(nl: Netlist, nl': Netlist, n: NexusId, ids: seq<NodeId>, next: NexusId, cid: NodeId)
    requires Wellformed(nl) && Fuses(nl, nl', n, ids, next, cid)
    ensures NodeOk(nl.nexa, nl'.nodes[cid])
    ensures forall k | k in Ins(nl'.nodes[cid]) && TwoState(nl.nexa[k]) ::
              exists i | 0 <= i < |ids| :: k == nl.nodes[ids[i]].part
  {
    hide Tiled, Pins, GapFills, TwoState, Wellformed;
    var parts := NodesOf(nl.nodes, ids);
    forall i | 0 <= i < |parts|
      ensures parts[i].part in nl.nexa && Width(nl.nexa[parts[i].part]) == parts[i].width
    {
      FusedPartOk(nl, n, ids, i);
    }
    FusedPinsOk(nl, parts, Width(nl.nexa[n]), next, FillBit(nl.nexa[n]));
    forall k | k in Ins(nl'.nodes[cid]) && TwoState(nl.nexa[k])
      ensures exists i | 0 <= i < |ids| :: k == nl.nodes[ids[i]].part
    {
      var i :| 0 <= i < |parts| && k == parts[i].part;
      assert k == nl.nodes[ids[i]].part;
    }
  }

  lemma FusedClean(nl: Netlist, nl': Netlist, n: NexusId, ids: seq<NodeId>, next: NexusId, cid: NodeId)
    requires Wellformed(nl) && Clean(nl) && Fuses(nl, nl', n, ids, next, cid)
    ensures Clean(nl')
  {
    hide Clean, TwoState, KeptAt, Fuses, Wellformed;
    FusedNexa(nl, nl', n, ids, next, cid);
    forall k | k in nl'.nexa && TwoState(nl'.nexa[k]) ensures KeptAt(nl, nl', k) {
      FusedAt(nl, nl', n, ids, next, cid, k);
    }
    CleanKept(nl, nl');
  }

  lemma FusedNexa(nl: Netlist, nl': Netlist, n: NexusId, ids: seq<NodeId>, next: NexusId, cid: NodeId)
    requires Fuses(nl, nl', n, ids, next, cid)
    ensures nl'.nexa == nl.nexa
    ensures forall m | m in nl'.nodes && m != cid :: m in nl.nodes && nl'.nodes[m] == nl.nodes[m]
    ensures forall m | m in nl.nodes && !IsPart(nl.nodes[m]) :: m in nl'.nodes && nl'.nodes[m] == nl.nodes[m]
    ensures cid in nl'.nodes && nl'.nodes[cid].Concat?
    ensures forall i | 0 <= i < |ids| :: ids[i] in nl.nodes && IsPart(nl.nodes[ids[i]])
  {
    hide Tiled, Pins, GapFills, FillsHeld, Width, FillBit;
  }

  lemma FusedAt(nl: Netlist, nl': Netlist, n: NexusId, ids: seq<NodeId>, next: NexusId, cid: NodeId, k: NexusId)
    requires Wellformed(nl) && Fuses(nl, nl', n, ids, next, cid) && k in nl'.nexa && TwoState(nl'.nexa[k])
    ensures KeptAt(nl, nl', k)
  {
    hide Fuses, Wellformed, Steady, Feeds, PartDriven, TwoState;
    FusedNexa(nl, nl', n, ids, next, cid);
    SteadyKept(nl, nl', k);
    FusedFeeds(nl, nl', n, ids, next, cid, k);
    PartsKept(nl, nl', k);
  }

  /** The new concatenation reads nothing of 2-state type but what the parts read. */
  lemma FusedFeeds(nl: Netlist, nl': Netlist, n: NexusId, ids: seq<NodeId>, next: NexusId, cid: NodeId, k: NexusId)
    requires Wellformed(nl) && Fuses(nl, nl', n, ids, next, cid) && k in nl'.nexa && TwoState(nl'.nexa[k])
    ensures Feeds(nl', k) ==> Feeds(nl, k)
  {
    hide Fuses, Wellformed, TwoState;
    FusedNexa(nl, nl', n, ids, next, cid);
    if m :| m in nl'.nodes && Joins(nl'.nodes[m]) && k in Ins(nl'.nodes[m]) {
      var m' := m;
      if m == cid {
        FusedConcatOk(nl, nl', n, ids, next, cid);
        var i :| 0 <= i < |ids| && k == nl.nodes[ids[i]].part;
        m' := ids[i];
      }
      assert m' in nl.nodes && Joins(nl.nodes[m']) && k in Ins(nl.nodes[m']);
    }
  }

  lemma FuseWeight(nl: Netlist, nl': Netlist, n: NexusId, ids: seq<NodeId>, next: NexusId, cid: NodeId)
    requires Fuses(nl, nl', n, ids, next, cid) && ids != []
    ensures Weight(nl') < Weight(nl)
  {
    var gone := set id | id in ids;
    assert ids[0] in ids && ids[0] in gone;
    FusedWeight(nl.nodes, gone, cid, nl'.nodes[cid]);
    assert nl'.nodes == (nl.nodes - gone)[cid := nl'.nodes[cid]];
    assert |gone| >= 1;
  }

  /** Replacing the parts by the concatenation keeps the netlist well formed, and clean. */
  lemma FuseImproves(nl: Netlist, nl': Netlist, n: NexusId, ids: seq<NodeId>, next: NexusId, cid: NodeId)
    requires Wellformed(nl) && Fuses(nl, nl', n, ids, next, cid) && ids != []
    requires NoDuplicates(nl'.order) && forall id :: id in nl'.order <==> id in nl'.nodes
    ensures Improves(nl, nl', map[], FillsHarmlessly(nl, n, NodesOf(nl.nodes, ids)))
  {
    hide SameMeaning, Weight, Clean, FillsHarmlessly, Wellformed, Fuses, NodesOf;
    FuseWeight(nl, nl', n, ids, next, cid);
    FuseWellformed(nl, nl', n, ids, next, cid);
    FusedDriven(nl, nl', n, ids, next, cid);
    if FillsHarmlessly(nl, n, NodesOf(nl.nodes, ids)) {
      FuseKeepsMeaning(nl, nl', n, ids, next, cid);
    }
    if Clean(nl) {
      CleanFuses(nl, n, ids);
      FusedClean(nl, nl', n, ids, next, cid);
    }
  }

  lemma FusedDriven(nl: Netlist, nl': Netlist, n: NexusId, ids: seq<NodeId>, next: NexusId, cid: NodeId)
    requires Fuses(nl, nl', n, ids, next, cid)
    ensures DrivenByParts(nl, n, ids)
  {
  }

  lemma FuseWellformed(nl: Netlist, nl': Netlist, n: NexusId, ids: seq<NodeId>, next: NexusId, cid: NodeId)
    requires Wellformed(nl) && Fuses(nl, nl', n, ids, next, cid)
    requires NoDuplicates(nl'.order) && forall id :: id in nl'.order <==> id in nl'.nodes
    ensures Wellformed(nl')
  {
    hide Tiled, GapFills, Pins, Wellformed, NodeOk, FillsHeld;
    FusedConcatOk(nl, nl', n, ids, next, cid);
    KeptNodes(nl, nl', cid);
  }

  lemma KeptNodes(nl: Netlist, nl': Netlist, cid: NodeId)
    requires Wellformed(nl) && nl'.nexa == nl.nexa
    requires forall id | id in nl'.nodes && id != cid :: id in nl.nodes && nl'.nodes[id] == nl.nodes[id]
    requires cid in nl'.nodes && NodeOk(nl.nexa, nl'.nodes[cid])
    requires NoDuplicates(nl'.order) && forall id :: id in nl'.order <==> id in nl'.nodes
    ensures Wellformed(nl')
  {
  }
}
