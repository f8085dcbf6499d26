/** The steps of a run: each is one rewriting of the netlist before it into the netlist after
    it, and a run is a chain of them. */
module CpropSteps {
  import opened FourState
  import opened Netlists
  import opened Rewriting
  import opened ConstantRules
  import opened FusionRule
  import opened CpropProgress
  import opened CpropReference

  // ----- a fusion from beginning to end

  /** The parts `ids` of nexus `n` have become one concatenation; its gaps have become the
      nexuses `fills`, numbered from `next`, each with a constant of its own; and nothing else
      has changed. */
  ghost predicate FusedInto(nl: Netlist, nl': Netlist, n: NexusId, ids: seq<NodeId>, next: NexusId, fills: Valuation) {
    && DrivenByParts(nl, n, ids) && Tiled(NodesOf(nl.nodes, ids), 0, Width(nl.nexa[n]))
    && fills == GapFills(NodesOf(nl.nodes, ids), 0, Width(nl.nexa[n]), next, FillBit(nl.nexa[n]))
    && FillsHeld(nl', fills)
    && fills.Keys !! nl.nexa.Keys
    && nl'.nexa.Keys == nl.nexa.Keys + fills.Keys
    && (forall k | k in nl.nexa :: nl'.nexa[k] == nl.nexa[k])
    && (forall id | id in nl.nodes :: if id in ids then id !in nl'.nodes
                                      else id in nl'.nodes && nl'.nodes[id] == nl.nodes[id])
    && exists cid :: FusedBy(nl, nl', n, ids, next, fills, cid)
  }

  /** Node `cid` is the concatenation, and every other new node is a filler constant. */
  ghost predicate FusedBy(nl: Netlist, nl': Netlist, n: NexusId, ids: seq<NodeId>, next: NexusId, fills: Valuation,
                          cid: NodeId)
    requires DrivenByParts(nl, n, ids)
  {
    && cid in nl'.nodes && cid !in nl.nodes
    && nl'.nodes[cid] == Concat(Width(nl.nexa[n]), false, Pins(NodesOf(nl.nodes, ids), 0, Width(nl.nexa[n]), next), n)
    && forall id | id in nl'.nodes && id !in nl.nodes && id != cid :: nl'.nodes[id].Const? && nl'.nodes[id].out in fills
  }

  /** The fillers are in place but the parts have not yet given way to `cid`. */
  ghost function Halfway(nl: Netlist, nl': Netlist, ids: seq<NodeId>, cid: NodeId): Netlist {
    Netlist(Without(nl'.order, cid) + ids, (nl'.nodes - {cid}) + nl.nodes, nl'.nexa)
  }

  lemma HalfwayFilled(nl: Netlist, nl': Netlist, n: NexusId, ids: seq<NodeId>, next: NexusId, fills: Valuation,
                      cid: NodeId)
    requires Wellformed(nl) && FusedInto(nl, nl', n, ids, next, fills) && FusedBy(nl, nl', n, ids, next, fills, cid)
    ensures Filled(nl, Halfway(nl, nl', ids, cid), fills)
    ensures n !in fills
  {
    hide Tiled, GapFills, Pins, Wellformed, Without, Width, FillBit, FillsHeld;
    AllHeldHalfway(nl, nl', n, ids, next, fills, cid);
  }

  lemma AllHeldHalfway(nl: Netlist, nl': Netlist, n: NexusId, ids: seq<NodeId>, next: NexusId, fills: Valuation,
                       cid: NodeId)
    requires FusedInto(nl, nl', n, ids, next, fills) && FusedBy(nl, nl', n, ids, next, fills, cid)
    ensures FillsHeld(Halfway(nl, nl', ids, cid), fills)
  {
    hide FusedInto, FusedBy, HoldsConst, Halfway;
    forall k | k in fills ensures HoldsConst(Halfway(nl, nl', ids, cid), k, fills[k]) {
      HeldHalfway(nl, nl', n, ids, next, fills, cid, k);
    }
  }

  lemma HeldHalfway(nl: Netlist, nl': Netlist, n: NexusId, ids: seq<NodeId>, next: NexusId, fills: Valuation,
                    cid: NodeId, k: NexusId)
    requires FusedInto(nl, nl', n, ids, next, fills) && FusedBy(nl, nl', n, ids, next, fills, cid) && k in fills
    ensures HoldsConst(Halfway(nl, nl', ids, cid), k, fills[k])
  {
    hide Tiled, GapFills, Pins, Without;
    var mid := Halfway(nl, nl', ids, cid);
    assert HoldsConst(nl', k, fills[k]);
    var id :| id in nl'.nodes && Out(nl'.nodes[id]) == k;
    assert id != cid && id in mid.nodes && Out(mid.nodes[id]) == k;
  }

  lemma HalfwayWellformed(nl: Netlist, nl': Netlist, n: NexusId, ids: seq<NodeId>, next: NexusId, fills: Valuation,
                          cid: NodeId)
    requires Wellformed(nl) && Wellformed(nl') && NoDuplicates(ids)
    requires FusedInto(nl, nl', n, ids, next, fills) && FusedBy(nl, nl', n, ids, next, fills, cid)
    ensures Wellformed(Halfway(nl, nl', ids, cid))
  {
    hide Tiled, GapFills, Pins, FillsHeld, NodeOk, NexusOk, Halfway, Width, FillBit;
    HalfwayOrder(nl, nl', n, ids, cid);
    HalfwayNodes(nl, nl', n, ids, cid);
  }

  /** Every node once: those of the netlist after the fusion without the concatenation, and the
      parts again. */
  lemma HalfwayOrder(nl: Netlist, nl': Netlist, n: NexusId, ids: seq<NodeId>, cid: NodeId)
    requires Wellformed(nl') && NoDuplicates(ids) && cid in nl'.nodes && cid !in nl.nodes
    requires forall id | id in ids :: id in nl.nodes && id !in nl'.nodes
    requires forall id | id in nl.nodes && id !in ids :: id in nl'.nodes && nl'.nodes[id] == nl.nodes[id]
    ensures var mid := Halfway(nl, nl', ids, cid);
      NoDuplicates(mid.order) && forall id :: id in mid.order <==> id in mid.nodes
    ensures var mid := Halfway(nl, nl', ids, cid); forall k | k in mid.nexa :: NexusOk(mid.nexa[k])
  {
    hide NodeOk, NexusOk, Without;
    var mid, rest := Halfway(nl, nl', ids, cid), Without(nl'.order, cid);
    WithoutKeepsRest(nl'.order, cid);
    assert forall id | id in rest :: id in nl'.nodes;
    forall i, j | 0 <= i < j < |mid.order| ensures mid.order[i] != mid.order[j] {
      if i < |rest| <= j {
        assert mid.order[i] in rest && mid.order[j] in ids;
      }
    }
  }

  lemma HalfwayNodes(nl: Netlist, nl': Netlist, n: NexusId, ids: seq<NodeId>, cid: NodeId)
    requires Wellformed(nl) && Wellformed(nl')
    requires forall id | id in ids :: id in nl.nodes && IsPart(nl.nodes[id])
    requires forall id | id in nl.nodes && id !in ids :: id in nl'.nodes && nl'.nodes[id] == nl.nodes[id]
    requires forall k | k in nl.nexa :: k in nl'.nexa && nl'.nexa[k] == nl.nexa[k]
    ensures var mid := Halfway(nl, nl', ids, cid); forall id | id in mid.nodes :: NodeOk(mid.nexa, mid.nodes[id])
  {
    hide Without, NodeOk;
    var mid := Halfway(nl, nl', ids, cid);
    forall id | id in mid.nodes ensures NodeOk(mid.nexa, mid.nodes[id]) {
      if id in ids {
        assert NodeOk(nl.nexa, nl.nodes[id]);
        PartStaysOk(nl.nexa, mid.nexa, nl.nodes[id]);
      } else {
        assert id in nl'.nodes && mid.nodes[id] == nl'.nodes[id];
      }
    }
  }

  lemma PartStaysOk(nexa: map<NexusId, Nexus>, nexa': map<NexusId, Nexus>, part: Node)
    requires NodeOk(nexa, part) && IsPart(part)
    requires forall k | k in nexa :: k in nexa' && nexa'[k] == nexa[k]
    ensures NodeOk(nexa', part)
  {
    assert part.part in Ins(part);
  }

  lemma HalfwayFuses(nl: Netlist, nl': Netlist, n: NexusId, ids: seq<NodeId>, next: NexusId, fills: Valuation,
                     cid: NodeId)
    requires Wellformed(nl) && FusedInto(nl, nl', n, ids, next, fills) && FusedBy(nl, nl', n, ids, next, fills, cid)
    ensures Fuses(Halfway(nl, nl', ids, cid), nl', n, ids, next, cid)
    ensures NodesOf(Halfway(nl, nl', ids, cid).nodes, ids) == NodesOf(nl.nodes, ids)
  {
    hide Tiled, GapFills, Pins, Wellformed, Without, FillsHeld, Width, FillBit;
    var mid := Halfway(nl, nl', ids, cid);
    HalfwayFilled(nl, nl', n, ids, next, fills, cid);
    HalfwayDriven(nl, nl', n, ids, next, fills, cid);
    PartsGone(nl, nl', ids, cid);
    hide DrivenByParts;
  }

  lemma PartsGone(nl: Netlist, nl': Netlist, ids: seq<NodeId>, cid: NodeId)
    requires cid in nl'.nodes && cid !in nl.nodes
    requires forall id | id in nl.nodes :: if id in ids then id !in nl'.nodes
                                           else id in nl'.nodes && nl'.nodes[id] == nl.nodes[id]
    requires forall id | id in ids :: id in nl.nodes
    ensures nl'.nodes == (Halfway(nl, nl', ids, cid).nodes - (set id | id in ids))[cid := nl'.nodes[cid]]
  {
    hide Without;
  }

  lemma HalfwayDriven(nl: Netlist, nl': Netlist, n: NexusId, ids: seq<NodeId>, next: NexusId, fills: Valuation,
                      cid: NodeId)
    requires Wellformed(nl) && FusedInto(nl, nl', n, ids, next, fills) && FusedBy(nl, nl', n, ids, next, fills, cid)
    ensures DrivenByParts(Halfway(nl, nl', ids, cid), n, ids)
    ensures NodesOf(Halfway(nl, nl', ids, cid).nodes, ids) == NodesOf(nl.nodes, ids)
  {
    hide Tiled, GapFills, Pins, Wellformed, Without, FillsHeld, Width, FillBit;
    HalfwayFilled(nl, nl', n, ids, next, fills, cid);
    assert NodesOf(Halfway(nl, nl', ids, cid).nodes, ids) == NodesOf(nl.nodes, ids);
  }

  /** What a fusion does, from the netlist before it to the netlist after it. */
  lemma FusedIntoImproves(nl: Netlist, nl': Netlist, n: NexusId, ids: seq<NodeId>, next: NexusId, fills: Valuation)
    requires Wellformed(nl) && Wellformed(nl') && NoDuplicates(ids) && ids != []
    requires FusedInto(nl, nl', n, ids, next, fills)
    ensures Improves(nl, nl', fills, FillsHarmlessly(nl, n, NodesOf(nl.nodes, ids)))
  {
    hide Tiled, GapFills, Pins, FillsHeld, Clean, Weight, SameMeaning, Fuses, Filled;
    var cid :| FusedBy(nl, nl', n, ids, next, fills, cid);
    var mid := Halfway(nl, nl', ids, cid);
    HalfwayFilled(nl, nl', n, ids, next, fills, cid);
    HalfwayWellformed(nl, nl', n, ids, next, fills, cid);
    HalfwayFuses(nl, nl', n, ids, next, fills, cid);
    hide FusedInto, FusedBy, Halfway;
    FusedHalf(nl, mid, nl', n, ids, next, fills, cid);
  }

  lemma FusedHalf(nl: Netlist, mid: Netlist, nl': Netlist, n: NexusId, ids: seq<NodeId>, next: NexusId,
                  fills: Valuation, cid: NodeId)
    requires Wellformed(nl) && Wellformed(mid) && Wellformed(nl') && Filled(nl, mid, fills)
    requires Fuses(mid, nl', n, ids, next, cid) && ids != [] && n in nl.nexa
    requires (forall id | id in ids :: id in nl.nodes) && NodesOf(mid.nodes, ids) == NodesOf(nl.nodes, ids)
    requires AllParts(NodesOf(nl.nodes, ids))
    ensures Improves(nl, nl', fills, FillsHarmlessly(nl, n, NodesOf(nl.nodes, ids)))
  {
    hide Tiled, GapFills, Pins, FillsHeld, Clean, Weight, SameMeaning, FillsHarmlessly, Wellformed, Fuses, AllParts;
    WellformedOrder(nl');
    FilledMeaning(nl, mid, fills);
    FilledWeight(nl, mid, fills);
    var parts := NodesOf(nl.nodes, ids);
    HarmlessSame(nl, mid, n, parts);
    FuseImproves(mid, nl', n, ids, next, cid);
    if FillsHarmlessly(nl, n, parts) {
      SameMeaningTrans(nl, mid, nl', fills, map[]);
      assert fills + map[] == fills;
    }
    if Clean(nl) {
      FilledClean(nl, mid, fills);
    }
  }

  lemma HarmlessSame(nl: Netlist, mid: Netlist, n: NexusId, parts: seq<Node>)
    requires n in nl.nexa && n in mid.nexa && mid.nexa[n] == nl.nexa[n] && AllParts(parts)
    ensures FillsHarmlessly(mid, n, parts) == FillsHarmlessly(nl, n, parts)
  {
  }

  lemma WellformedOrder(nl: Netlist)
    requires Wellformed(nl)
    ensures Listed(nl) && NoDuplicates(nl.order) && forall id :: id in nl.order <==> id in nl.nodes
  {
  }

  // ----- the drivers in base order

  lemma SortedDrivers(nl: Netlist, n: NexusId, found: seq<NodeId>, parts: seq<NodeId>)
    requires Wellformed(nl) && n in nl.nexa && found == Drivers(nl.nodes, nl.order, n)
    requires multiset(parts) == multiset(found)
    requires forall i | 0 <= i < |nl.nexa[n].nets| :: nl.nexa[n].nets[i].kind.PlainWire?
    requires forall id | id in found :: IsPart(nl.nodes[id])
    ensures DrivenByParts(nl, n, parts) && NoDuplicates(parts) && |parts| == |found|
  {
    DriversAre(nl.nodes, nl.order, n);
    forall id ensures id in parts <==> id in found {
      assert id in multiset(parts) <==> id in multiset(found);
    }
    UniqueCounts(found);
    forall i, j | 0 <= i < j < |parts| ensures parts[i] != parts[j] {
      if parts[i] == parts[j] {
        assert parts[i] in found;
        TwiceCounts(parts, i, j);
      }
    }
    assert |parts| == |multiset(parts)| == |multiset(found)| == |found|;
  }

  lemma {:induction false} UniqueCounts(s: seq<NodeId>)
    requires NoDuplicates(s)
    ensures forall x | x in s :: multiset(s)[x] == 1
  {
    if s != [] {
      assert s == [s[0]] + s[1..];
      UniqueCounts(s[1..]);
      assert s[0] !in s[1..];
      assert s[0] !in multiset(s[1..]);
    }
  }

  lemma TwiceCounts(s: seq<NodeId>, i: nat, j: nat)
    requires i < j < |s| && s[i] == s[j]
    ensures multiset(s)[s[i]] >= 2
  {
    assert s == s[..j] + [s[j]] + s[j + 1..];
    assert s[i] in s[..j];
    assert s[i] in multiset(s[..j]);
  }

  lemma FusedIdsAre(nl: Netlist, n: NexusId)
    requires Wellformed(nl) && CanFuse(nl, n)
    ensures DrivenByParts(nl, n, FusedIds(nl, n)) && NoDuplicates(FusedIds(nl, n)) && FusedIds(nl, n) != []
  {
    hide Apart;
    SortedDrivers(nl, n, Drivers(nl.nodes, nl.order, n), FusedIds(nl, n));
  }

  // ----- steps and runs

  /** One counted optimization, made at node `at`; `fills` are the nexuses it adds. */
  datatype Step = Step(before: Netlist, at: NodeId, after: Netlist, fills: Valuation)

  ghost predicate FoldedBy(s: Step, id: NodeId)
    requires Listed(s.before) && CanFold(s.before, s.at)
  {
    var node := s.before.nodes[s.at];
    && s.fills == map[]
    && id !in s.before.nodes
    && s.after == Replaced(s.before, s.at, id, Const(Folded(s.before, node), node.out))
  }

  ghost predicate BypassedBy(s: Step, id: NodeId)
    requires Listed(s.before) && CanBypass(s.before, s.at)
  {
    && s.fills == map[]
    && id !in s.before.nodes
    && s.after == Replaced(s.before, s.at, id, Bypass(s.before, s.at))
  }

  ghost predicate FusedFrom(s: Step, next: NexusId)
    requires Listed(s.before) && s.at in s.before.nodes && IsPart(s.before.nodes[s.at])
    requires CanFuse(s.before, s.before.nodes[s.at].vec)
  {
    var n := s.before.nodes[s.at].vec;
    FusedInto(s.before, s.after, n, FusedIds(s.before, n), next, s.fills)
  }

  /** The step is the rewriting that applies at its node. */
  ghost predicate Made(s: Step) {
    && Listed(s.before) && Wellformed(s.after) && CanRewrite(s.before, s.at)
    && (CanFold(s.before, s.at) ==> exists id :: FoldedBy(s, id))
    && (CanBypass(s.before, s.at) ==> exists id :: BypassedBy(s, id))
    && (s.at in s.before.nodes && IsPart(s.before.nodes[s.at]) && CanFuse(s.before, s.before.nodes[s.at].vec) ==>
          exists next :: FusedFrom(s, next))
  }

  lemma MadeImproves(s: Step)
    requires Wellformed(s.before) && Made(s)
    ensures Improves(s.before, s.after, s.fills, StepExact(s.before, s.at))
  {
    hide Wellformed, Improves, DriversConstant, CanFuse, FusedInto, FillsHarmlessly, FoldsExactly, Folded;
    var nl := s.before;
    WellformedListed(nl);
    if CanFold(nl, s.at) {
      var id :| FoldedBy(s, id);
      FoldImproves(nl, s.at, id);
    } else if CanBypass(nl, s.at) {
      var id :| BypassedBy(s, id);
      BypassImproves(nl, s.at, id);
    } else {
      var n := nl.nodes[s.at].vec;
      var next :| FusedFrom(s, next);
      FusedIdsAre(nl, n);
      FusedIntoImproves(nl, s.after, n, FusedIds(nl, n), next, s.fills);
    }
  }

  /** The steps lead from `nl` to `nl'`, each starting where the one before it ended. */
  ghost predicate Taken(nl: Netlist, nl': Netlist, steps: seq<Step>)
    decreases |steps|
  {
    if steps == [] then nl' == nl
    else
      var k := |steps| - 1;
      Made(steps[k]) && steps[k].after == nl' && Taken(nl, steps[k].before, steps[..k])
  }

  /** All the nexuses that the steps add. */
  ghost function SumFills(steps: seq<Step>): Valuation {
    if steps == [] then map[] else SumFills(steps[..|steps| - 1]) + steps[|steps| - 1].fills
  }

  ghost predicate AllExact(steps: seq<Step>) {
    forall i | 0 <= i < |steps| :: Listed(steps[i].before) && StepExact(steps[i].before, steps[i].at)
  }

  lemma TakenNext(nl: Netlist, steps: seq<Step>, s: Step)
    requires Taken(nl, s.before, steps) && Made(s)
    ensures Taken(nl, s.after, steps + [s]) && SumFills(steps + [s]) == SumFills(steps) + s.fills
  {
    hide Made;
    assert (steps + [s])[..|steps|] == steps;
  }

  lemma TakenNone(nl: Netlist)
    ensures Taken(nl, nl, []) && SumFills([]) == map[]
  {
  }

  lemma TakenLast(nl: Netlist, nl': Netlist, steps: seq<Step>)
    requires Taken(nl, nl', steps)
    ensures steps == [] ==> nl' == nl
    ensures steps != [] ==>
      var s, before := steps[|steps| - 1], steps[..|steps| - 1];
      && Made(s) && s.after == nl' && Taken(nl, s.before, before)
      && SumFills(steps) == SumFills(before) + s.fills
  {
    hide Made;
  }

  lemma {:induction false} TakenTrans(a: Netlist, b: Netlist, c: Netlist, s: seq<Step>, t: seq<Step>)
    requires Taken(a, b, s) && Taken(b, c, t)
    ensures Taken(a, c, s + t) && SumFills(s + t) == SumFills(s) + SumFills(t)
    decreases |t|
  {
    hide Made, Taken, SumFills;
    TakenLast(b, c, t);
    TakenNone(b);
    if t == [] {
      assert s + t == s && SumFills(s) + map[] == SumFills(s);
    } else {
      var x, before := t[|t| - 1], t[..|t| - 1];
      TakenTrans(a, b, x.before, s, before);
      TakenNext(a, s + before, x);
      assert (s + before) + [x] == s + t;
      MergeAssociates(SumFills(s), SumFills(before), x.fills);
    }
  }

  lemma MergeAssociates(f: Valuation, g: Valuation, h: Valuation)
    ensures (f + g) + h == f + (g + h)
  {
  }

  /** What a chain of steps keeps and uses up: if each step is exact, the meaning; in a clean
      netlist each one is; and each one costs some weight. */
  lemma {:induction false} TakenKeeps(nl: Netlist, nl': Netlist, steps: seq<Step>)
    requires Wellformed(nl) && Taken(nl, nl', steps)
    ensures Wellformed(nl') && |steps| + Weight(nl') <= Weight(nl)
    ensures AllExact(steps) ==> SameMeaning(nl, nl', SumFills(steps))
    ensures Clean(nl) ==> AllExact(steps) && Clean(nl')
    decreases |steps|
  {
    hide Wellformed, Clean, Weight, SameMeaning, Made, StepExact, CanRewrite, Taken, SumFills, AllExact;
    TakenLast(nl, nl', steps);
    TakenNone(nl);
    if steps == [] {
      SameMeaningRefl(nl);
      NoneInexact();
    } else {
      var k := |steps| - 1;
      var s, before := steps[k], steps[..k];
      TakenKeeps(nl, s.before, before);
      MadeImproves(s);
      MadeListed(s);
      LastExact(before, s);
      assert steps == before + [s];
      if AllExact(steps) {
        SameMeaningTrans(nl, s.before, nl', SumFills(before), s.fills);
      }
    }
  }

  lemma NoneInexact()
    ensures AllExact([])
  {
  }

  lemma LastExact(before: seq<Step>, s: Step)
    requires Listed(s.before)
    ensures AllExact(before + [s]) <==> AllExact(before) && StepExact(s.before, s.at)
  {
    hide StepExact;
    var steps := before + [s];
    assert steps[|before|] == s;
    assert forall i | 0 <= i < |before| :: steps[i] == before[i];
  }

  lemma MadeListed(s: Step)
    requires Made(s)
    ensures Listed(s.before) && CanRewrite(s.before, s.at) && Wellformed(s.after)
  {
  }

  ghost predicate AllHarmless(steps: seq<Step>) {
    forall i | 0 <= i < |steps| :: Harmless(steps[i].before, steps[i].at)
  }

  /** Every step of a chain is one that applies, and it is exact if and only if it is harmless. */
  lemma {:induction false} TakenApply(nl: Netlist, nl': Netlist, steps: seq<Step>)
    requires Wellformed(nl) && Taken(nl, nl', steps)
    ensures Wellformed(nl') && forall i | 0 <= i < |steps| :: Applies(steps[i].before, steps[i].at)
    ensures AllExact(steps) <==> AllHarmless(steps)
    decreases |steps|
  {
    hide Wellformed, Made, StepExact, Harmless, Applies, CanRewrite, Taken, SumFills, AllExact;
    TakenLast(nl, nl', steps);
    if steps == [] {
      NoneInexact();
    } else {
      var k := |steps| - 1;
      var s, before := steps[k], steps[..k];
      TakenApply(nl, s.before, before);
      MadeListed(s);
      AppliesIff(s.before, s.at);
      HarmlessIff(s.before, s.at);
      LastExact(before, s);
      assert steps == before + [s];
      assert forall i | 0 <= i < k :: steps[i] == before[i];
    }
  }
}
