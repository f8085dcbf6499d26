/** When each optimization applies, in terms of nets, pins and drivers alone: a reference for the
    predicates that the optimizer computes from its scans. */
module CpropReference {
  import opened FourState
  import opened Netlists
  import opened Rewriting
  import opened ConstantRules
  import opened FusionRule
  import opened CpropProgress
  import opened DanglingRule

  /** A procedure, a variable or the world outside the root module may drive the net. */
  predicate DrivenElsewhere(net: Net) {
    || net.lrefs > 0
    || net.kind.Variable?
    || (net.kind.PlainWire? && net.inRoot && (net.port == Input || net.port == Inout))
  }

  ghost predicate OnlyNodesDrive(nx: Nexus) {
    !nx.tran && forall i | 0 <= i < |nx.nets| :: !DrivenElsewhere(nx.nets[i])
  }

  ghost predicate PulledAt(nx: Nexus, i: nat) {
    i < |nx.nets| && (nx.nets[i].kind.Supply? || nx.nets[i].kind.Tri?)
  }

  ghost predicate NotPulled(nx: Nexus) {
    forall i: nat :: !PulledAt(nx, i)
  }

  ghost predicate NoDriver(nl: Netlist, n: NexusId) {
    forall id | id in nl.nodes :: Out(nl.nodes[id]) != n
  }

  ghost predicate SoleDriver(nl: Netlist, n: NexusId, id: NodeId) {
    id in nl.nodes && Out(nl.nodes[id]) == n && forall m | m in nl.nodes && Out(nl.nodes[m]) == n :: m == id
  }

  ghost predicate SolePull(nx: Nexus, i: nat) {
    PulledAt(nx, i) && forall j: nat | PulledAt(nx, j) :: j == i
  }

  /** The nexus is driven with `v` and nothing else: by one constant node and no pull, by one pull
      and no node, or not at all. */
  ghost predicate ConstantIs(nl: Netlist, n: NexusId, v: Vec) {
    && n in nl.nexa
    && var nx := nl.nexa[n];
    && OnlyNodesDrive(nx)
    && (   (NotPulled(nx) && exists id: NodeId :: SoleDriver(nl, n, id) && nl.nodes[id] == Const(v, n))
        || (NoDriver(nl, n) && exists i: nat :: SolePull(nx, i) && v == Fill(Level(nx.nets[i].kind.one), Width(nx)))
        || (NoDriver(nl, n) && NotPulled(nx) && v == Fill(Vz, Width(nx))))
  }

  ghost predicate ConstantAt(nl: Netlist, n: NexusId) {
    exists v :: ConstantIs(nl, n, v)
  }

  /** A concatenation that is not transparent, all of whose inputs are constant. */
  ghost predicate FoldApplies(nl: Netlist, id: NodeId) {
    && id in nl.nodes && nl.nodes[id].Concat? && !nl.nodes[id].transparent
    && forall n | n in nl.nodes[id].ins :: ConstantAt(nl, n)
  }

  /** A two-way mux whose select is one bit wide, and a constant 0 or 1. */
  ghost predicate BypassApplies(nl: Netlist, id: NodeId, input: NexusId) {
    && id in nl.nodes && nl.nodes[id].Mux?
    && |nl.nodes[id].data| == 2 && nl.nodes[id].selWidth == 1
    && exists v :: ConstantIs(nl, nl.nodes[id].sel, v) && v != [] &&
         ((v[0] == V0 && input == nl.nodes[id].data[0]) || (v[0] == V1 && input == nl.nodes[id].data[1]))
  }

  ghost predicate Fits(nl: Netlist, n: NexusId, id: NodeId)
    requires n in nl.nexa
  {
    && id in nl.nodes && nl.nodes[id].Select? && nl.nodes[id].dir == PV
    && nl.nodes[id].base + nl.nodes[id].width <= Width(nl.nexa[n])
  }

  predicate HasBit(p: Node, b: nat)
    requires p.Select?
  {
    p.base <= b < p.base + p.width
  }

  ghost predicate Disjoint(p: Node, q: Node)
    requires p.Select? && q.Select?
  {
    forall b: nat :: !(HasBit(p, b) && HasBit(q, b))
  }

  /** Nexus `n` has plain nets only; part-to-vector selects drive it that lie inside the vector and
      share no bit; and there are two, or one and a 2-state net. */
  ghost predicate FusionApplies(nl: Netlist, n: NexusId)
    requires n in nl.nexa
  {
    && (forall i | 0 <= i < |nl.nexa[n].nets| :: nl.nexa[n].nets[i].kind.PlainWire?)
    && (forall id | id in nl.nodes && Out(nl.nodes[id]) == n :: Fits(nl, n, id))
    && (forall d, e | d in nl.nodes && e in nl.nodes && d != e && Out(nl.nodes[d]) == n && Out(nl.nodes[e]) == n ::
          Disjoint(nl.nodes[d], nl.nodes[e]))
    && (exists d :: d in nl.nodes && Out(nl.nodes[d]) == n)
    && ((forall d :: !SoleDriver(nl, n, d)) || exists i :: 0 <= i < |nl.nexa[n].nets| && nl.nexa[n].nets[i].isBool)
  }

  /** Some optimization applies at node `id`. */
  ghost predicate Applies(nl: Netlist, id: NodeId) {
    || FoldApplies(nl, id)
    || (exists input :: BypassApplies(nl, id, input))
    || (   id in nl.nodes && nl.nodes[id].Select? && nl.nodes[id].dir == PV && nl.nodes[id].vec in nl.nexa
        && FusionApplies(nl, nl.nodes[id].vec))
  }

  ghost predicate HasBoolNet(nx: Nexus) {
    exists i :: 0 <= i < |nx.nets| && nx.nets[i].isBool
  }

  /** The optimization at node `id` is harmless: a fold reads no undefined constant through a 2-state
      net, and a fusion leaves no bit of a 2-state nexus uncovered that may be driven elsewhere. */
  ghost predicate Harmless(nl: Netlist, id: NodeId) {
    && (FoldApplies(nl, id) ==>
          forall n, v | n in nl.nodes[id].ins && ConstantIs(nl, n, v) && HasBoolNet(nl.nexa[n]) ::
            forall b | 0 <= b < |v| :: v[b] == V0 || v[b] == V1)
    && (id in nl.nodes && nl.nodes[id].Select? && nl.nodes[id].dir == PV && nl.nodes[id].vec in nl.nexa ==>
          FusionApplies(nl, nl.nodes[id].vec) ==> GapsHarmless(nl, nl.nodes[id].vec))
  }

  ghost predicate GapsHarmless(nl: Netlist, n: NexusId)
    requires n in nl.nexa
  {
    HasBoolNet(nl.nexa[n]) && !OnlyNodesDrive(nl.nexa[n]) ==>
      forall b: nat | b < Width(nl.nexa[n]) :: HasDriverBit(nl, n, b)
  }

  ghost predicate HasDriverBit(nl: Netlist, n: NexusId, b: nat) {
    exists m :: m in nl.nodes && Out(nl.nodes[m]) == n && nl.nodes[m].Select? && HasBit(nl.nodes[m], b)
  }

  /** Nothing is left to optimize. */
  ghost predicate NothingLeft(nl: Netlist) {
    && (forall id | id in nl.nodes :: !FoldApplies(nl, id))
    && (forall id, input | id in nl.nodes :: !BypassApplies(nl, id, input))
    && (forall n | n in nl.nexa :: !FusionApplies(nl, n))
  }

  // ----- constant nexuses

  lemma OutsideIs(nx: Nexus)
    ensures External(nx) <==> !OnlyNodesDrive(nx)
  {
    assert forall i | 0 <= i < |nx.nets| :: MakesVariable(nx.nets[i]) <==> DrivenElsewhere(nx.nets[i]);
  }

  lemma {:induction false} OnePull(nets: seq<Net>)
    requires forall i: nat, j: nat | i < |nets| && j < |nets| && IsPull(nets[i]) && IsPull(nets[j]) :: i == j
    ensures PullCount(nets) <= 1
  {
    if nets != [] {
      assert forall i | 1 <= i < |nets| :: nets[i] == nets[1..][i - 1];
      OnePull(nets[1..]);
      if IsPull(nets[0]) {
        PullsCounted(nets[1..]);
      }
    }
  }

  lemma PullsAre(nx: Nexus)
    ensures PullCount(nx.nets) == 0 <==> NotPulled(nx)
    ensures PullCount(nx.nets) == 1 <==> exists i: nat :: SolePull(nx, i)
    ensures PullCount(nx.nets) == 0 ==> PullLevel(nx.nets) == Vz
    ensures forall i: nat | SolePull(nx, i) :: PullLevel(nx.nets) == Level(nx.nets[i].kind.one)
  {
    assert forall i: nat | i < |nx.nets| :: PulledAt(nx, i) <==> IsPull(nx.nets[i]);
    PullsCounted(nx.nets);
    if PullCount(nx.nets) == 1 {
      var i: nat :| OnlyPull(nx.nets, i);
      assert SolePull(nx, i);
    }
    if exists i: nat :: SolePull(nx, i) {
      OnePull(nx.nets);
    }
  }

  lemma DriversCounted(nl: Netlist, n: NexusId)
    requires Wellformed(nl)
    ensures Drivers(nl.nodes, nl.order, n) == [] <==> NoDriver(nl, n)
    ensures var ds := Drivers(nl.nodes, nl.order, n); |ds| == 1 ==> SoleDriver(nl, n, ds[0])
    ensures forall id: NodeId | SoleDriver(nl, n, id) :: Drivers(nl.nodes, nl.order, n) == [id]
  {
    hide Drivers;
    var ds := Drivers(nl.nodes, nl.order, n);
    DriversAre(nl.nodes, nl.order, n);
    assert forall id :: id in ds <==> id in nl.nodes && Out(nl.nodes[id]) == n;
    hide Wellformed;
    if ds != [] {
      assert ds[0] in ds;
    }
    forall id: NodeId | SoleDriver(nl, n, id) ensures ds == [id] {
      OnlyElement(ds, id);
    }
  }

  lemma OnlyElement(ids: seq<NodeId>, id: NodeId)
    requires NoDuplicates(ids) && forall m :: m in ids <==> m == id
    ensures ids == [id]
  {
    assert id in ids;
    if |ids| > 1 {
      TwoElements(ids);
    }
  }

  lemma TwoElements(ids: seq<NodeId>)
    requires NoDuplicates(ids) && |ids| > 1
    ensures exists a, b :: a in ids && b in ids && a != b
  {
    assert ids[0] in ids && ids[1] in ids;
  }

  /** The scan finds a nexus constant exactly if it is, and finds its value. */
  lemma ConstantIff(nl: Netlist, n: NexusId)
    requires Wellformed(nl) && n in nl.nexa
    ensures DriversConstant(nl, n) <==> ConstantAt(nl, n)
    ensures DriversConstant(nl, n) ==> forall v :: ConstantIs(nl, n, v) <==> v == DrivenVector(nl, n)
  {
    hide Wellformed, External, OnlyNodesDrive, PullCount, PullLevel, Drivers;
    WellformedListed(nl);
    var nx, ds := nl.nexa[n], Drivers(nl.nodes, nl.order, n);
    OutsideIs(nx);
    PullsAre(nx);
    DriversCounted(nl, n);
    DriversAre(nl.nodes, nl.order, n);
    if DriversConstant(nl, n) {
      var v := DrivenVector(nl, n);
      if |ds| == 1 {
        assert ds[0] in ds;
        assert nl.nodes[ds[0]] == Const(v, n);
      }
      assert ConstantIs(nl, n, v);
    }
    forall v | ConstantIs(nl, n, v) ensures DriversConstant(nl, n) && v == DrivenVector(nl, n) {
      if !NoDriver(nl, n) {
        var id: NodeId :| SoleDriver(nl, n, id) && nl.nodes[id] == Const(v, n);
        assert ds == [id];
      }
    }
  }

  // ----- the three rules

  lemma FoldIff(nl: Netlist, id: NodeId)
    requires Wellformed(nl)
    ensures CanFold(nl, id) <==> FoldApplies(nl, id)
  {
    hide DriversConstant, ConstantAt, NexusOk;
    WellformedListed(nl);
    if id in nl.nodes && nl.nodes[id].Concat? {
      assert NodeOk(nl.nexa, nl.nodes[id]) && Ins(nl.nodes[id]) == nl.nodes[id].ins;
      forall n | n in nl.nodes[id].ins ensures n in nl.nexa && (DriversConstant(nl, n) <==> ConstantAt(nl, n)) {
        ConstantIff(nl, n);
      }
    }
  }

  lemma BypassIff(nl: Netlist, id: NodeId)
    requires Wellformed(nl)
    ensures CanBypass(nl, id) <==> exists input :: BypassApplies(nl, id, input)
    ensures CanBypass(nl, id) ==> BypassApplies(nl, id, Bypass(nl, id).inp)
  {
    hide DriversConstant, DrivenVector, ConstantIs, NexusOk;
    WellformedListed(nl);
    if id in nl.nodes && nl.nodes[id].Mux? {
      var node := nl.nodes[id];
      assert NodeOk(nl.nexa, node) && Ins(node)[0] == node.sel;
      ConstantIff(nl, node.sel);
      if CanBypass(nl, id) {
        var v := DrivenVector(nl, node.sel);
        assert ConstantIs(nl, node.sel, v);
        assert BypassApplies(nl, id, Bypass(nl, id).inp);
      }
    }
  }

  lemma ApartIs(p: Node, q: Node)
    requires IsPart(p) && IsPart(q) && p.width >= 1 && q.width >= 1
    ensures Apart(p, q) <==> Disjoint(p, q)
  {
    if !Apart(p, q) {
      var b := if p.base <= q.base then q.base else p.base;
      assert HasBit(p, b) && HasBit(q, b);
    }
  }

  lemma PartWidth(nl: Netlist, id: NodeId)
    requires Wellformed(nl) && id in nl.nodes && IsPart(nl.nodes[id])
    ensures nl.nodes[id].width >= 1
  {
    var node := nl.nodes[id];
    assert NodeOk(nl.nexa, node) && node.part in Ins(node);
    assert NexusOk(nl.nexa[node.part]);
  }

  lemma FuseIff(nl: Netlist, n: NexusId)
    requires Wellformed(nl) && n in nl.nexa
    ensures CanFuse(nl, n) <==> FusionApplies(nl, n)
  {
    hide Drivers, Apart, Disjoint, NodeOk, NexusOk;
    var ds := Drivers(nl.nodes, nl.order, n);
    DriversAre(nl.nodes, nl.order, n);
    DriversCounted(nl, n);
    assert forall id :: id in ds <==> id in nl.nodes && Out(nl.nodes[id]) == n;
    forall d, e | d in ds && e in ds && IsPart(nl.nodes[d]) && IsPart(nl.nodes[e])
      ensures Apart(nl.nodes[d], nl.nodes[e]) <==> Disjoint(nl.nodes[d], nl.nodes[e])
    {
      PartWidth(nl, d);
      PartWidth(nl, e);
      ApartIs(nl.nodes[d], nl.nodes[e]);
    }
    hide Wellformed;
  }

  lemma AppliesIff(nl: Netlist, id: NodeId)
    requires Wellformed(nl)
    ensures CanRewrite(nl, id) <==> Applies(nl, id)
  {
    hide Wellformed, CanFold, CanBypass, CanFuse, FoldApplies, BypassApplies, FusionApplies;
    WellformedListed(nl);
    FoldIff(nl, id);
    BypassIff(nl, id);
    if id in nl.nodes && IsPart(nl.nodes[id]) {
      PartOut(nl, id);
      FuseIff(nl, nl.nodes[id].vec);
    }
  }

  /** The inputs of a concatenation carry the constants `vs`. */
  ghost predicate ConstantsAre(nl: Netlist, ins: seq<NexusId>, vs: seq<Vec>) {
    |vs| == |ins| && forall i | 0 <= i < |ins| :: ConstantIs(nl, ins[i], vs[i])
  }

  lemma {:induction false} ConstantsJoined(nl: Netlist, ins: seq<NexusId>, vs: seq<Vec>)
    requires Wellformed(nl) && ConstantsAre(nl, ins, vs)
    ensures Listed(nl) && AllConstant(nl, ins) && DrivenVectors(nl, ins) == vs
  {
    hide Wellformed, ConstantIs, DriversConstant, DrivenVector;
    WellformedListed(nl);
    if ins != [] {
      ConstantNexus(nl, ins[0], vs[0]);
      ConstantIff(nl, ins[0]);
      forall i | 0 <= i < |ins[1..]| ensures ConstantIs(nl, ins[1..][i], vs[1..][i]) {
        assert ConstantIs(nl, ins[i + 1], vs[i + 1]);
      }
      ConstantsJoined(nl, ins[1..], vs[1..]);
      assert vs == [vs[0]] + vs[1..] && ins == [ins[0]] + ins[1..];
    }
  }

  lemma ConstantNexus(nl: Netlist, n: NexusId, v: Vec)
    requires ConstantIs(nl, n, v)
    ensures n in nl.nexa && ConstantAt(nl, n)
  {
  }

  lemma HarmlessFold(nl: Netlist, id: NodeId)
    requires Wellformed(nl) && CanFold(nl, id)
    ensures FoldsExactly(nl, nl.nodes[id].ins) <==>
      forall n, v | n in nl.nodes[id].ins && ConstantIs(nl, n, v) && HasBoolNet(nl.nexa[n]) ::
        forall b | 0 <= b < |v| :: v[b] == V0 || v[b] == V1
  {
    hide Wellformed, ConstantIs, DriversConstant, DrivenVector;
    WellformedListed(nl);
    forall n | n in nl.nodes[id].ins ensures ConstantIs(nl, n, DrivenVector(nl, n)) {
      ConstantIff(nl, n);
    }
    forall n, v | n in nl.nodes[id].ins && ConstantIs(nl, n, v) ensures v == DrivenVector(nl, n) {
      ConstantIff(nl, n);
    }
  }

  lemma HarmlessFusion(nl: Netlist, n: NexusId)
    requires Wellformed(nl) && n in nl.nexa && CanFuse(nl, n)
    ensures Listed(nl) && (FillsHarmlessly(nl, n, FusedParts(nl, n)) <==> GapsHarmless(nl, n))
  {
    hide Wellformed, Drivers, External, OnlyNodesDrive, CanFuse;
    WellformedListed(nl);
    OutsideIs(nl.nexa[n]);
    forall b: nat ensures Covered(FusedParts(nl, n), b) <==> HasDriverBit(nl, n, b) {
      CoveredIff(nl, n, b);
    }
  }

  lemma CoveredIff(nl: Netlist, n: NexusId, b: nat)
    requires Wellformed(nl) && n in nl.nexa && Listed(nl) && CanFuse(nl, n)
    ensures Covered(FusedParts(nl, n), b) <==> HasDriverBit(nl, n, b)
  {
    hide Wellformed, CanFuse;
    FusedIdsAll(nl, n);
    var ids, parts := FusedIds(nl, n), FusedParts(nl, n);
    hide FusedIds;
    if Covered(parts, b) {
      var i :| 0 <= i < |parts| && Covers(parts[i], b);
      assert ids[i] in ids;
      assert HasBit(nl.nodes[ids[i]], b);
    }
    if m :| m in nl.nodes && Out(nl.nodes[m]) == n && nl.nodes[m].Select? && HasBit(nl.nodes[m], b) {
      assert m in ids;
      var i :| 0 <= i < |ids| && ids[i] == m;
      assert Covers(parts[i], b);
    }
  }

  lemma FusedIdsAll(nl: Netlist, n: NexusId)
    requires Wellformed(nl) && Listed(nl) && CanFuse(nl, n)
    ensures forall m :: m in FusedIds(nl, n) <==> m in nl.nodes && Out(nl.nodes[m]) == n
  {
    hide Drivers, NodeOk, NexusOk, SortByBase;
    var ds, ids := Drivers(nl.nodes, nl.order, n), FusedIds(nl, n);
    DriversAre(nl.nodes, nl.order, n);
    forall m ensures m in ids <==> m in ds {
      assert m in ids <==> m in multiset(ids);
      assert m in ds <==> m in multiset(ds);
    }
  }

  lemma HarmlessIff(nl: Netlist, id: NodeId)
    requires Wellformed(nl)
    ensures StepExact(nl, id) <==> Harmless(nl, id)
  {
    hide Wellformed, CanFold, CanFuse, FoldApplies, FusionApplies, ConstantIs, FoldsExactly, FillsHarmlessly,
      HasBoolNet,
      GapsHarmless;
    WellformedListed(nl);
    FoldIff(nl, id);
    if CanFold(nl, id) {
      HarmlessFold(nl, id);
    }
    if id in nl.nodes && IsPart(nl.nodes[id]) {
      PartOut(nl, id);
      FuseIff(nl, nl.nodes[id].vec);
      if CanFuse(nl, nl.nodes[id].vec) {
        HarmlessFusion(nl, nl.nodes[id].vec);
      }
    }
  }

  lemma LeftIff(nl: Netlist)
    requires Wellformed(nl)
    ensures (forall id | id in nl.nodes :: !CanRewrite(nl, id)) <==> NothingLeft(nl)
  {
    hide Wellformed, CanFold, CanBypass, CanFuse, FoldApplies, BypassApplies, FusionApplies;
    WellformedListed(nl);
    forall id ensures CanFold(nl, id) <==> FoldApplies(nl, id) {
      FoldIff(nl, id);
    }
    forall id ensures CanBypass(nl, id) <==> exists input :: BypassApplies(nl, id, input) {
      BypassIff(nl, id);
    }
    forall n | n in nl.nexa ensures CanFuse(nl, n) <==> FusionApplies(nl, n) {
      FuseIff(nl, n);
    }
    FusionNodes(nl);
  }

  lemma FusionNodes(nl: Netlist)
    requires Wellformed(nl)
    ensures (exists n :: n in nl.nexa && FusionApplies(nl, n))
       <==> exists id :: id in nl.nodes && IsPart(nl.nodes[id]) && CanFuse(nl, nl.nodes[id].vec)
  {
    hide CanFuse, FusionApplies, NodeOk, NexusOk;
    if n :| n in nl.nexa && FusionApplies(nl, n) {
      FuseIff(nl, n);
      FusionNode(nl, n);
      var id :| id in nl.nodes && Out(nl.nodes[id]) == n && IsPart(nl.nodes[id]);
      assert CanFuse(nl, nl.nodes[id].vec);
    }
    if id :| id in nl.nodes && IsPart(nl.nodes[id]) && CanFuse(nl, nl.nodes[id].vec) {
      PartOut(nl, id);
      FuseIff(nl, nl.nodes[id].vec);
    }
  }

  lemma FusionNode(nl: Netlist, n: NexusId)
    requires n in nl.nexa && FusionApplies(nl, n)
    ensures exists id :: id in nl.nodes && Out(nl.nodes[id]) == n && IsPart(nl.nodes[id])
  {
    var id :| id in nl.nodes && Out(nl.nodes[id]) == n;
    assert Fits(nl, n, id);
  }

  lemma PartOut(nl: Netlist, id: NodeId)
    requires Wellformed(nl) && id in nl.nodes && IsPart(nl.nodes[id])
    ensures nl.nodes[id].vec in nl.nexa
  {
    assert NodeOk(nl.nexa, nl.nodes[id]);
  }

  // ----- the clean-up

  /** Some node reads the nexus, or one of its nets is a signal from the source, is read by an
      expression or is a port of the root module. */
  ghost predicate Seen(nl: Netlist, n: NexusId)
    requires n in nl.nexa
  {
    || (exists id :: id in nl.nodes && n in Ins(nl.nodes[id]))
    || exists i :: 0 <= i < |nl.nexa[n].nets| &&
         var net := nl.nexa[n].nets[i];
         !net.local || net.erefs > 0 || (net.inRoot && (net.port == Input || net.port == Output || net.port == Inout))
  }

  lemma SeenIff(nl: Netlist)
    ensures LiveNexa(nl) == set n | n in nl.nexa && Seen(nl, n)
    ensures forall id | id in nl.nodes && Out(nl.nodes[id]) in nl.nexa ::
      Dangling(nl, id) <==>
        nl.nodes[id].Const? && ((forall b | 0 <= b < |nl.nodes[id].value| :: nl.nodes[id].value[b] == Vz)
                                || !Seen(nl, Out(nl.nodes[id])))
  {
    forall n | n in nl.nexa ensures Live(nl, n) <==> Seen(nl, n) {
      assert forall i | 0 <= i < |nl.nexa[n].nets| ::
        Observable(nl.nexa[n].nets[i]) <==>
          var net := nl.nexa[n].nets[i];
          !net.local || net.erefs > 0 || (net.inRoot && (net.port == Input || net.port == Output || net.port == Inout));
    }
  }

  // ----- clean netlists

  /** A driver that stays, and is not an undefined constant. */
  predicate Stays(node: Node) {
    match node
    case Const(value, _) => forall b | 0 <= b < |value| :: value[b] == V0 || value[b] == V1
    case Concat(_, _, _, _) => false
    case Select(dir, _, _, _, _) => dir == VP
    case _ => true
  }

  ghost predicate ReadToJoin(nl: Netlist, n: NexusId) {
    exists id :: id in nl.nodes && n in Ins(nl.nodes[id])
      && ((nl.nodes[id].Concat? && !nl.nodes[id].transparent) || (nl.nodes[id].Select? && nl.nodes[id].dir == PV))
  }

  ghost predicate StaysDriven(nl: Netlist, n: NexusId) {
    exists id :: id in nl.nodes && Out(nl.nodes[id]) == n && Stays(nl.nodes[id])
  }

  ghost predicate HasPart(nl: Netlist, n: NexusId) {
    exists id :: id in nl.nodes && nl.nodes[id].Select? && nl.nodes[id].dir == PV && nl.nodes[id].vec == n
  }

  /** The netlist is clean exactly if every 2-state nexus that an untransparent concatenation or a
      part-to-vector select reads is driven elsewhere, pulled or driven by a node that stays, and no
      2-state nexus of plain nets is driven both elsewhere and by a part-to-vector select. */
  lemma CleanIff(nl: Netlist)
    ensures Clean(nl) <==>
      forall n | n in nl.nexa && HasBoolNet(nl.nexa[n]) ::
        && (ReadToJoin(nl, n) ==>
              !OnlyNodesDrive(nl.nexa[n]) || !NotPulled(nl.nexa[n]) || StaysDriven(nl, n))
        && !(HasPart(nl, n) && !OnlyNodesDrive(nl.nexa[n])
             && forall i | 0 <= i < |nl.nexa[n].nets| :: nl.nexa[n].nets[i].kind.PlainWire?)
  {
    hide External, OnlyNodesDrive, PullCount, NotPulled;
    forall n | n in nl.nexa
      ensures (External(nl.nexa[n]) <==> !OnlyNodesDrive(nl.nexa[n]))
           && (PullCount(nl.nexa[n].nets) == 0 <==> NotPulled(nl.nexa[n]))
    {
      OutsideIs(nl.nexa[n]);
      PullsAre(nl.nexa[n]);
    }
    forall n ensures (Feeds(nl, n) <==> ReadToJoin(nl, n)) && (PartDriven(nl, n) <==> HasPart(nl, n))
                  && (StaysDriven(nl, n) <==>
                        exists id :: id in nl.nodes && Out(nl.nodes[id]) == n && Lasting(nl.nodes[id]))
    {
      ReadersAre(nl, n);
    }
    hide Feeds, ReadToJoin, PartDriven, HasPart, StaysDriven, Lasting;
  }

  lemma ReadersAre(nl: Netlist, n: NexusId)
    ensures Feeds(nl, n) <==> ReadToJoin(nl, n)
    ensures PartDriven(nl, n) <==> HasPart(nl, n)
    ensures StaysDriven(nl, n) <==> exists id :: id in nl.nodes && Out(nl.nodes[id]) == n && Lasting(nl.nodes[id])
  {
    assert forall id | id in nl.nodes :: Lasting(nl.nodes[id]) <==> Stays(nl.nodes[id]);
    hide Lasting, Stays, Ins, Out;
  }
}
