/** The third rule: several part-to-vector selects that alone drive a nexus, and do not
    overlap, become one concatenation, with filler constants in the gaps. */
module FusionRule {
  import opened FourState
  import opened Netlists
  import opened Rewriting
  import opened ConstantRules

  predicate IsPart(node: Node) {
    node.Select? && node.dir == PV
  }

  predicate AllParts(parts: seq<Node>) {
    forall i | 0 <= i < |parts| :: IsPart(parts[i])
  }

  /** In base order from `off` on, without overlap, within `size` bits. */
  predicate Tiled(parts: seq<Node>, off: nat, size: nat)
    requires AllParts(parts)
  {
    if parts == [] then off <= size
    else off <= parts[0].base && Tiled(parts[1..], parts[0].base + parts[0].width, size)
  }

  lemma {:induction false} TiledFits(parts: seq<Node>, off: nat, size: nat)
    requires AllParts(parts) && Tiled(parts, off, size)
    ensures off <= size
    ensures parts != [] ==> parts[0].base + parts[0].width <= size
  {
    if parts != [] {
      TiledFits(parts[1..], parts[0].base + parts[0].width, size);
    }
  }

  // ----- the pins of the concatenation

  function PinCount(parts: seq<Node>, off: nat, size: nat): nat
    requires AllParts(parts)
  {
    if parts == [] then (if off < size then 1 else 0)
    else (if parts[0].base > off then 2 else 1) + PinCount(parts[1..], parts[0].base + parts[0].width, size)
  }

  /** Input nexuses from the least significant end; gaps take `next`, `next + 1`, ... */
  function Pins(parts: seq<Node>, off: nat, size: nat, next: NexusId): seq<NexusId>
    requires AllParts(parts)
  {
    if parts == [] then (if off < size then [next] else [])
    else
      var end := parts[0].base + parts[0].width;
      if parts[0].base > off then [next, parts[0].part] + Pins(parts[1..], end, size, next + 1)
      else [parts[0].part] + Pins(parts[1..], end, size, next)
  }

  /** What the gap nexuses carry. */
  function GapFills(parts: seq<Node>, off: nat, size: nat, next: NexusId, bit: V4): Valuation
    requires AllParts(parts)
  {
    if parts == [] then (if off < size then map[next := Fill(bit, size - off)] else map[])
    else
      var end := parts[0].base + parts[0].width;
      if parts[0].base > off
      then map[next := Fill(bit, parts[0].base - off)] + GapFills(parts[1..], end, size, next + 1, bit)
      else GapFills(parts[1..], end, size, next, bit)
  }

  lemma {:induction false} GapFillsNew(parts: seq<Node>, off: nat, size: nat, next: NexusId, bit: V4)
    requires AllParts(parts)
    ensures forall k | k in GapFills(parts, off, size, next, bit) :: next <= k
    ensures |Pins(parts, off, size, next)| == PinCount(parts, off, size)
  {
    if parts != [] {
      GapFillsNew(parts[1..], parts[0].base + parts[0].width, size, next + 1, bit);
      GapFillsNew(parts[1..], parts[0].base + parts[0].width, size, next, bit);
    }
  }

  // ----- bit `b` of the concatenation

  predicate Covers(part: Node, b: nat)
    requires IsPart(part)
  {
    part.base <= b < part.base + part.width
  }

  /** The bit that the first part covering `b` drives, `bit` where there is a gap. */
  function FusedBit(parts: seq<Node>, b: nat, bit: V4, v: Valuation): V4
    requires AllParts(parts)
  {
    if parts == [] then bit
    else if Covers(parts[0], b) then BitAt(Get(v, parts[0].part), b - parts[0].base)
    else FusedBit(parts[1..], b, bit, v)
  }

  ghost predicate PartsShaped(parts: seq<Node>, v: Valuation)
    requires AllParts(parts)
  {
    forall i | 0 <= i < |parts| :: |Get(v, parts[i].part)| == parts[i].width
  }

  lemma {:induction false} FusedBitBelow(parts: seq<Node>, off: nat, size: nat, b: nat, bit: V4, v: Valuation)
    requires AllParts(parts) && Tiled(parts, off, size) && b < off
    ensures FusedBit(parts, b, bit, v) == bit
  {
    if parts != [] {
      FusedBitBelow(parts[1..], parts[0].base + parts[0].width, size, b, bit, v);
    }
  }

  /** The parts laid out over bits [off, size), `bit` in the gaps. */
  function Laid(parts: seq<Node>, off: nat, size: nat, bit: V4, v: Valuation): Vec
    requires AllParts(parts) && Tiled(parts, off, size)
  {
    if parts == [] then Fill(bit, size - off)
    else Fill(bit, parts[0].base - off) + Get(v, parts[0].part) +
         Laid(parts[1..], parts[0].base + parts[0].width, size, bit, v)
  }

  lemma {:induction false} LaidBits(parts: seq<Node>, off: nat, size: nat, bit: V4, v: Valuation)
    requires AllParts(parts) && Tiled(parts, off, size) && PartsShaped(parts, v)
    ensures |Laid(parts, off, size, bit, v)| == size - off
    ensures forall b | off <= b < size :: Laid(parts, off, size, bit, v)[b - off] == FusedBit(parts, b, bit, v)
  {
    if parts != [] {
      var part, rest, end := parts[0], parts[1..], parts[0].base + parts[0].width;
      TiledFits(rest, end, size);
      assert PartsShaped(rest, v) by {
        assert forall i | 0 <= i < |rest| :: rest[i] == parts[i + 1];
      }
      LaidBits(rest, end, size, bit, v);
      forall b | off <= b < part.base ensures FusedBit(parts, b, bit, v) == bit {
        FusedBitBelow(rest, end, size, b, bit, v);
      }
    }
  }

  /** Every gap nexus carries its filler. */
  ghost predicate GapsHold(parts: seq<Node>, off: nat, size: nat, next: NexusId, bit: V4, v: Valuation)
    requires AllParts(parts)
  {
    if parts == [] then off < size ==> Get(v, next) == Fill(bit, size - off)
    else
      var end := parts[0].base + parts[0].width;
      if parts[0].base > off
      then Get(v, next) == Fill(bit, parts[0].base - off) && GapsHold(parts[1..], end, size, next + 1, bit, v)
      else GapsHold(parts[1..], end, size, next, bit, v)
  }

  ghost predicate Carries(v: Valuation, fills: Valuation) {
    forall k | k in fills :: Get(v, k) == fills[k]
  }

  lemma {:induction false} FillsHoldGaps(parts: seq<Node>, off: nat, size: nat, next: NexusId, bit: V4, v: Valuation)
    requires AllParts(parts) && Carries(v, GapFills(parts, off, size, next, bit))
    ensures GapsHold(parts, off, size, next, bit, v)
  {
    hide Fill, GapFills, GapsHold, Carries;
    if parts == [] {
      LastGap(off, size, next, bit, v);
    } else {
      var rest, end := parts[1..], parts[0].base + parts[0].width;
      if parts[0].base > off {
        WithGap(parts, off, size, next, bit, v);
        FillsHoldGaps(rest, end, size, next + 1, bit, v);
      } else {
        WithoutGap(parts, off, size, next, bit, v);
        FillsHoldGaps(rest, end, size, next, bit, v);
      }
    }
  }

  lemma LastGap(off: nat, size: nat, next: NexusId, bit: V4, v: Valuation)
    requires Carries(v, GapFills([], off, size, next, bit))
    ensures GapsHold([], off, size, next, bit, v)
  {
    assert off < size ==> next in GapFills([], off, size, next, bit);
  }

  lemma WithGap(parts: seq<Node>, off: nat, size: nat, next: NexusId, bit: V4, v: Valuation)
    requires AllParts(parts) && parts != [] && parts[0].base > off
    requires Carries(v, GapFills(parts, off, size, next, bit))
    ensures var rest, end := parts[1..], parts[0].base + parts[0].width;
      && Carries(v, GapFills(rest, end, size, next + 1, bit))
      && (GapsHold(rest, end, size, next + 1, bit, v) ==> GapsHold(parts, off, size, next, bit, v))
  {
    hide Fill;
    var rest, end := parts[1..], parts[0].base + parts[0].width;
    GapFillsNew(rest, end, size, next + 1, bit);
    OneGap(v, next, Fill(bit, parts[0].base - off), GapFills(rest, end, size, next + 1, bit));
  }

  lemma OneGap(v: Valuation, next: NexusId, value: Vec, rest: Valuation)
    requires next !in rest && Carries(v, map[next := value] + rest)
    ensures Get(v, next) == value && Carries(v, rest)
  {
    var fills := map[next := value] + rest;
    assert next in fills && fills[next] == value;
    assert forall k | k in rest :: k in fills && fills[k] == rest[k];
  }

  lemma WithoutGap(parts: seq<Node>, off: nat, size: nat, next: NexusId, bit: V4, v: Valuation)
    requires AllParts(parts) && parts != [] && parts[0].base <= off
    requires Carries(v, GapFills(parts, off, size, next, bit))
    ensures var rest, end := parts[1..], parts[0].base + parts[0].width;
      && Carries(v, GapFills(rest, end, size, next, bit))
      && (GapsHold(rest, end, size, next, bit, v) ==> GapsHold(parts, off, size, next, bit, v))
  {
    hide Carries, Fill;
  }

  /** The joined inputs fill the nexus exactly, each part at its base, the filler elsewhere. */
  lemma {:induction false} JoinedPins(parts: seq<Node>, off: nat, size: nat, next: NexusId, bit: V4, v: Valuation)
    requires AllParts(parts) && Tiled(parts, off, size) && GapsHold(parts, off, size, next, bit, v)
    ensures Join(Reads(v, Pins(parts, off, size, next))) == Laid(parts, off, size, bit, v)
  {
    hide Join, Reads, Fill, Laid, Pins, GapsHold, Tiled;
    if parts == [] {
      JoinedEnd(off, size, next, bit, v);
    } else {
      var part, rest, end := parts[0], parts[1..], parts[0].base + parts[0].width;
      NextLaid(parts, off, size, next, bit, v);
      if part.base > off {
        JoinedPins(rest, end, size, next + 1, bit, v);
        JoinTwo(v, next, part.part, Pins(rest, end, size, next + 1));
      } else {
        JoinedPins(rest, end, size, next, bit, v);
        JoinOne(v, part.part, Pins(rest, end, size, next));
      }
    }
  }

  lemma JoinedEnd(off: nat, size: nat, next: NexusId, bit: V4, v: Valuation)
    requires Tiled([], off, size) && GapsHold([], off, size, next, bit, v)
    ensures Join(Reads(v, Pins([], off, size, next))) == Laid([], off, size, bit, v)
  {
    if off < size {
      JoinOne(v, next, []);
      assert [next] + [] == [next];
    }
  }

  lemma NextLaid(parts: seq<Node>, off: nat, size: nat, next: NexusId, bit: V4, v: Valuation)
    requires AllParts(parts) && Tiled(parts, off, size) && GapsHold(parts, off, size, next, bit, v) && parts != []
    ensures var part, rest, end := parts[0], parts[1..], parts[0].base + parts[0].width;
      && Tiled(rest, end, size) && part.base >= off
      && (if part.base > off then
            && GapsHold(rest, end, size, next + 1, bit, v)
            && Pins(parts, off, size, next) == [next, part.part] + Pins(rest, end, size, next + 1)
            && Laid(parts, off, size, bit, v) == Get(v, next) + Get(v, part.part) + Laid(rest, end, size, bit, v)
          else
            && GapsHold(rest, end, size, next, bit, v)
            && Pins(parts, off, size, next) == [part.part] + Pins(rest, end, size, next)
            && Laid(parts, off, size, bit, v) == Get(v, part.part) + Laid(rest, end, size, bit, v))
  {
    if parts[0].base == off {
      assert Fill(bit, 0) + Get(v, parts[0].part) == Get(v, parts[0].part);
    }
  }

  lemma JoinOne(v: Valuation, n: NexusId, rest: seq<NexusId>)
    ensures Join(Reads(v, [n] + rest)) == Get(v, n) + Join(Reads(v, rest))
  {
    assert ([n] + rest)[1..] == rest;
    assert Reads(v, [n] + rest)[1..] == Reads(v, rest);
  }

  lemma JoinTwo(v: Valuation, m: NexusId, n: NexusId, rest: seq<NexusId>)
    ensures Join(Reads(v, [m, n] + rest)) == Get(v, m) + Get(v, n) + Join(Reads(v, rest))
  {
    assert [m, n] + rest == [m] + ([n] + rest);
    JoinOne(v, m, [n] + rest);
    JoinOne(v, n, rest);
  }

  // ----- bit `b` of the parts themselves

  function PartBit(part: Node, b: nat, v: Valuation): V4
    requires IsPart(part)
  {
    if Covers(part, b) then BitAt(Get(v, part.part), b - part.base) else Vz
  }

  /** Parts that do not overlap resolve to the one that covers the bit, and float in a gap. */
  lemma {:induction false} TiledPartsResolve(parts: seq<Node>, off: nat, size: nat, b: nat, v: Valuation)
    requires AllParts(parts) && Tiled(parts, off, size)
    ensures (set p | p in parts :: PartBit(p, b, v)) - {Vz} == {FusedBit(parts, b, Vz, v)} - {Vz}
    ensures b < off ==> forall p | p in parts :: !Covers(p, b)
  {
    if parts != [] {
      var rest, end := parts[1..], parts[0].base + parts[0].width;
      TiledPartsResolve(rest, end, size, b, v);
      assert forall p :: p in parts <==> p == parts[0] || p in rest;
      assert (set p | p in parts :: PartBit(p, b, v)) ==
        {PartBit(parts[0], b, v)} + set p | p in rest :: PartBit(p, b, v);
      if b < end {
        FusedBitBelow(rest, end, size, b, Vz, v);
      }
    }
  }

  predicate Covered(parts: seq<Node>, b: nat)
    requires AllParts(parts)
  {
    exists i | 0 <= i < |parts| :: Covers(parts[i], b)
  }

  lemma {:induction false} GapBit(parts: seq<Node>, b: nat, bit: V4, v: Valuation)
    requires AllParts(parts)
    ensures Covered(parts, b) ==> FusedBit(parts, b, bit, v) == FusedBit(parts, b, Vz, v)
    ensures !Covered(parts, b) ==> FusedBit(parts, b, bit, v) == bit
  {
    if parts != [] {
      var rest := parts[1..];
      assert forall i | 1 <= i < |parts| :: parts[i] == rest[i - 1];
      assert forall i | 0 <= i < |rest| :: rest[i] == parts[i + 1];
      GapBit(rest, b, bit, v);
    }
  }

  // ----- replacing the parts

  /** The parts have been collected: `ids` are exactly the drivers of `n`. */
  ghost predicate DrivenByParts(nl: Netlist, n: NexusId, ids: seq<NodeId>) {
    && n in nl.nexa
    && (forall id :: id in ids <==> id in nl.nodes && Out(nl.nodes[id]) == n)
    && (forall id | id in ids :: IsPart(nl.nodes[id]))
    && forall i | 0 <= i < |nl.nexa[n].nets| :: nl.nexa[n].nets[i].kind.PlainWire?
  }

  function NodesOf(nodes: map<NodeId, Node>, ids: seq<NodeId>): (r: seq<Node>)
    requires forall id | id in ids :: id in nodes
    ensures |r| == |ids| && forall i | 0 <= i < |ids| :: r[i] == nodes[ids[i]]
  {
    seq(|ids|, i requires 0 <= i < |ids| => nodes[ids[i]])
  }

  function FillBit(nx: Nexus): V4 {
    if TwoState(nx) then V0 else Vz
  }

  /** A gap in a 2-state nexus is filled with zeros, which is harmless unless something
      outside the node list drives the nexus too. */
  predicate FillsHarmlessly(nl: Netlist, n: NexusId, parts: seq<Node>)
    requires n in nl.nexa && AllParts(parts)
  {
    TwoState(nl.nexa[n]) && External(nl.nexa[n]) ==>
      forall b | 0 <= b < Width(nl.nexa[n]) :: Covered(parts, b)
  }

  /** The drivers' bits before and after fusion settle alike. */
  lemma FusedBitSettles(nl: Netlist, n: NexusId, ids: seq<NodeId>, env: Env, v: Valuation, b: nat)
    requires DrivenByParts(nl, n, ids)
    requires var parts := NodesOf(nl.nodes, ids);
      Tiled(parts, 0, Width(nl.nexa[n])) && FillsHarmlessly(nl, n, parts)
    requires b < Width(nl.nexa[n])
    ensures var fused := FusedBit(NodesOf(nl.nodes, ids), b, FillBit(nl.nexa[n]), v);
      NexusBit(nl, env, v, n, b) ==
      Settle(nl.nexa[n], Resolve({fused} + OutsideBits(nl.nexa[n], env, n, b)))
  {
    var nx, parts := nl.nexa[n], NodesOf(nl.nodes, ids);
    var fused, outside := FusedBit(parts, b, FillBit(nx), v), OutsideBits(nx, env, n, b);
    PartBits(nl, n, ids, env, v, b);
    TiledPartsResolve(parts, 0, Width(nx), b, v);
    GapBit(parts, b, FillBit(nx), v);
    GapBit(parts, b, Vz, v);
    var floating := FusedBit(parts, b, Vz, v);
    SameButZ(NodeBits(nl, env, v, n, b), {floating}, outside);
    ResolveIgnoresZ(NodeBits(nl, env, v, n, b) + outside, {floating} + outside);
    if fused != floating {
      assert !Covered(parts, b) && TwoState(nx) && floating == Vz && fused == V0;
      assert outside == {};
      assert {floating} + outside == {Vz} && {fused} + outside == {V0};
      assert Supplies(nx) == {} && Pulls(nx) == {};
    }
  }

  lemma SameButZ(s: set<V4>, t: set<V4>, u: set<V4>)
    requires s - {Vz} == t - {Vz}
    ensures (s + u) - {Vz} == (t + u) - {Vz}
  {
    assert (s + u) - {Vz} == (s - {Vz}) + (u - {Vz});
  }

  lemma PartBits(nl: Netlist, n: NexusId, ids: seq<NodeId>, env: Env, v: Valuation, b: nat)
    requires DrivenByParts(nl, n, ids)
    ensures NodeBits(nl, env, v, n, b) == set p | p in NodesOf(nl.nodes, ids) :: PartBit(p, b, v)
  {
    var parts := NodesOf(nl.nodes, ids);
    forall x | x in NodeBits(nl, env, v, n, b) ensures x in set p | p in parts :: PartBit(p, b, v) {
      var id :| id in nl.nodes && Out(nl.nodes[id]) == n && x == OutBit(env, id, nl.nodes[id], v, b);
      var i :| 0 <= i < |ids| && ids[i] == id;
      assert parts[i] in parts && x == PartBit(parts[i], b, v);
    }
    forall p | p in parts ensures PartBit(p, b, v) in NodeBits(nl, env, v, n, b) {
      var i :| 0 <= i < |parts| && parts[i] == p;
      assert ids[i] in ids;
      assert OutBit(env, ids[i], nl.nodes[ids[i]], v, b) == PartBit(p, b, v);
    }
  }

  // ----- the whole step

  /** The pieces are in place and the parts give way to concatenation `cid`. */
  ghost predicate Fuses(nl: Netlist, nl': Netlist, n: NexusId, ids: seq<NodeId>, next: NexusId, cid: NodeId) {
    && DrivenByParts(nl, n, ids)
    && Tiled(NodesOf(nl.nodes, ids), 0, Width(nl.nexa[n]))
    && cid !in nl.nodes
    && n !in GapFills(NodesOf(nl.nodes, ids), 0, Width(nl.nexa[n]), next, FillBit(nl.nexa[n]))
    && FillsHeld(nl, GapFills(NodesOf(nl.nodes, ids), 0, Width(nl.nexa[n]), next, FillBit(nl.nexa[n])))
    && nl'.nexa == nl.nexa
    && nl'.nodes == (nl.nodes - (set id | id in ids))[cid :=
         Concat(Width(nl.nexa[n]), false, Pins(NodesOf(nl.nodes, ids), 0, Width(nl.nexa[n]), next), n)]
  }

  lemma FuseKeepsMeaning(nl: Netlist, nl': Netlist, n: NexusId, ids: seq<NodeId>, next: NexusId, cid: NodeId)
    requires Wellformed(nl) && Fuses(nl, nl', n, ids, next, cid)
    requires FillsHarmlessly(nl, n, NodesOf(nl.nodes, ids))
    ensures SameMeaning(nl, nl', map[])
  {
    hide Wellformed, Tiled, FillsHarmlessly, GapFills, Pins;
    forall env: Env, v: Valuation ensures SameDrive(nl, nl', n, env, v) {
      if SettledElsewhere(nl, env, v, n) {
        forall b | 0 <= b < |v[n]| ensures NexusBit(nl, env, v, n, b) == NexusBit(nl', env, v, n, b) {
          FusedBitSettles(nl, n, ids, env, v, b);
          ConcatSettles(nl, nl', n, ids, next, cid, env, v, b);
        }
      }
    }
    SwapDrivers(nl, nl', n);
  }

  /** What the nexus carries once the concatenation drives it. */
  lemma ConcatSettles(nl: Netlist, nl': Netlist, n: NexusId, ids: seq<NodeId>, next: NexusId, cid: NodeId,
                      env: Env, v: Valuation, b: nat)
    requires Wellformed(nl) && Fuses(nl, nl', n, ids, next, cid) && SettledElsewhere(nl, env, v, n)
    requires b < Width(nl.nexa[n])
    ensures nl'.nexa == nl.nexa
    ensures NexusBit(nl', env, v, n, b) ==
      Settle(nl.nexa[n], Resolve({FusedBit(NodesOf(nl.nodes, ids), b, FillBit(nl.nexa[n]), v)}
                                 + OutsideBits(nl.nexa[n], env, n, b)))
  {
    hide Wellformed, Tiled, GapFills, Pins, FusedBit, Laid, Settle, FillsHeld;
    JoinedFills(nl, n, ids, next, FillBit(nl.nexa[n]), env, v);
    ConcatBit(NodesOf(nl.nodes, ids), Width(nl.nexa[n]), next, FillBit(nl.nexa[n]), n, cid, env, v, b);
    OnlyConcatDrives(nl, nl', n, ids, next, cid);
    OnlyDriver(nl', cid, env, v, n, b);
  }

  lemma ConcatBit(parts: seq<Node>, size: nat, next: NexusId, bit: V4, n: NexusId, cid: NodeId,
                  env: Env, v: Valuation, b: nat)
    requires AllParts(parts) && Tiled(parts, 0, size) && PartsShaped(parts, v) && b < size
    requires Join(Reads(v, Pins(parts, 0, size, next))) == Laid(parts, 0, size, bit, v)
    ensures OutBit(env, cid, Concat(size, false, Pins(parts, 0, size, next), n), v, b) == FusedBit(parts, b, bit, v)
  {
    LaidBits(parts, 0, size, bit, v);
  }

  lemma OnlyDriver(nl: Netlist, cid: NodeId, env: Env, v: Valuation, n: NexusId, b: nat)
    requires forall id :: id in nl.nodes && Out(nl.nodes[id]) == n <==> id == cid
    ensures cid in nl.nodes && NodeBits(nl, env, v, n, b) == {OutBit(env, cid, nl.nodes[cid], v, b)}
  {
  }

  lemma OnlyConcatDrives(nl: Netlist, nl': Netlist, n: NexusId, ids: seq<NodeId>, next: NexusId, cid: NodeId)
    requires Fuses(nl, nl', n, ids, next, cid)
    ensures forall id :: id in nl'.nodes && Out(nl'.nodes[id]) == n <==> id == cid
  {
    assert Out(nl'.nodes[cid]) == n;
  }

  lemma JoinedFills(nl: Netlist, n: NexusId, ids: seq<NodeId>, next: NexusId, bit: V4, env: Env, v: Valuation)
    requires Wellformed(nl) && DrivenByParts(nl, n, ids) && Tiled(NodesOf(nl.nodes, ids), 0, Width(nl.nexa[n]))
    requires n !in GapFills(NodesOf(nl.nodes, ids), 0, Width(nl.nexa[n]), next, bit)
    requires FillsHeld(nl, GapFills(NodesOf(nl.nodes, ids), 0, Width(nl.nexa[n]), next, bit))
    requires SettledElsewhere(nl, env, v, n)
    ensures PartsShaped(NodesOf(nl.nodes, ids), v)
    ensures Join(Reads(v, Pins(NodesOf(nl.nodes, ids), 0, Width(nl.nexa[n]), next))) ==
            Laid(NodesOf(nl.nodes, ids), 0, Width(nl.nexa[n]), bit, v)
  {
    hide Tiled, Pins, Laid, Join, GapFills, Wellformed, FillsHeld, SettledElsewhere, PartsShaped, Carries;
    var parts, size := NodesOf(nl.nodes, ids), Width(nl.nexa[n]);
    FillsCarried(nl, n, GapFills(parts, 0, size, next, bit), env, v);
    ShapedParts(nl, n, ids, env, v);
    FillsHoldGaps(parts, 0, size, next, bit, v);
    JoinedPins(parts, 0, size, next, bit, v);
  }

  lemma FillsCarried(nl: Netlist, n: NexusId, fills: Valuation, env: Env, v: Valuation)
    requires n in nl.nexa && n !in fills && FillsHeld(nl, fills) && SettledElsewhere(nl, env, v, n)
    ensures Carries(v, fills)
  {
    hide HoldsConst, SettledAt;
    forall k | k in fills ensures Get(v, k) == fills[k] {
      assert HoldsConst(nl, k, fills[k]);
      HeldNexus(nl, k, fills[k]);
      HoldsConstValue(nl, k, fills[k], env, v);
    }
  }

  lemma HeldNexus(nl: Netlist, k: NexusId, value: Vec)
    requires HoldsConst(nl, k, value)
    ensures k in nl.nexa
  {
  }

  lemma ShapedParts(nl: Netlist, n: NexusId, ids: seq<NodeId>, env: Env, v: Valuation)
    requires Wellformed(nl) && DrivenByParts(nl, n, ids) && SettledElsewhere(nl, env, v, n)
    ensures PartsShaped(NodesOf(nl.nodes, ids), v)
  {
    hide Wellformed, SettledElsewhere;
    var parts := NodesOf(nl.nodes, ids);
    forall i | 0 <= i < |parts| ensures |Get(v, parts[i].part)| == parts[i].width {
      assert ids[i] in ids;
      PartShape(nl, n, ids[i], env, v);
    }
  }

  lemma PartShape(nl: Netlist, n: NexusId, id: NodeId, env: Env, v: Valuation)
    requires Wellformed(nl) && id in nl.nodes && IsPart(nl.nodes[id])
    requires n in nl.nexa && SettledElsewhere(nl, env, v, n)
    ensures |Get(v, nl.nodes[id].part)| == nl.nodes[id].width
  {
    var node := nl.nodes[id];
    assert NodeOk(nl.nexa, node);
    assert node.part in Ins(node);
    if node.part != n {
      assert SettledAt(nl, env, v, node.part);
    }
  }

  /** On one valuation: the fused drivers settle as the parts do. */
  ghost predicate FuseAgrees(nl: Netlist, n: NexusId, ids: seq<NodeId>, env: Env, v: Valuation)
    requires DrivenByParts(nl, n, ids)
  {
    forall b | 0 <= b < Width(nl.nexa[n]) ::
      var fused := FusedBit(NodesOf(nl.nodes, ids), b, FillBit(nl.nexa[n]), v);
      NexusBit(nl, env, v, n, b) ==
      Settle(nl.nexa[n], Resolve({fused} + OutsideBits(nl.nexa[n], env, n, b)))
  }

  /** Fusing parts that do not overlap is exact, whatever the rest of the design does,
      exactly when no externally driven 2-state nexus has a gap. */
  lemma FuseExactIff(nl: Netlist, n: NexusId, ids: seq<NodeId>)
    requires DrivenByParts(nl, n, ids) && Tiled(NodesOf(nl.nodes, ids), 0, Width(nl.nexa[n]))
    ensures FillsHarmlessly(nl, n, NodesOf(nl.nodes, ids)) <==>
      forall env: Env, v: Valuation :: FuseAgrees(nl, n, ids, env, v)
  {
    var parts := NodesOf(nl.nodes, ids);
    if FillsHarmlessly(nl, n, parts) {
      forall env: Env, v: Valuation ensures FuseAgrees(nl, n, ids, env, v) {
        forall b | 0 <= b < Width(nl.nexa[n]) {
          FusedBitSettles(nl, n, ids, env, v, b);
        }
      }
    } else {
      var b :| 0 <= b < Width(nl.nexa[n]) && !Covered(parts, b);
      var env := Env((_, _) => [], _ => Fill(V1, Width(nl.nexa[n])));
      HarmfulGap(nl, n, ids, env, map[], b);
      assert !FuseAgrees(nl, n, ids, env, map[]);
    }
  }

  /** The outside world drives 1 into a gap of a 2-state nexus: the parts alone leave the
      1 in place, the zero filler turns it into a conflict and so into 0. */
  lemma HarmfulGap(nl: Netlist, n: NexusId, ids: seq<NodeId>, env: Env, v: Valuation, b: nat)
    requires DrivenByParts(nl, n, ids) && Tiled(NodesOf(nl.nodes, ids), 0, Width(nl.nexa[n]))
    requires TwoState(nl.nexa[n]) && External(nl.nexa[n])
    requires b < Width(nl.nexa[n]) && !Covered(NodesOf(nl.nodes, ids), b) && BitAt(env.outside(n), b) == V1
    ensures NexusBit(nl, env, v, n, b) == V1
    ensures FusedBit(NodesOf(nl.nodes, ids), b, FillBit(nl.nexa[n]), v) == V0
    ensures Settle(nl.nexa[n], Resolve({V0} + OutsideBits(nl.nexa[n], env, n, b))) == V0
  {
    var nx, parts := nl.nexa[n], NodesOf(nl.nodes, ids);
    assert Supplies(nx) == {} && Pulls(nx) == {};
    PartBits(nl, n, ids, env, v, b);
    GapBit(parts, b, V0, v);
    GapBit(parts, b, Vz, v);
    TiledPartsResolve(parts, 0, Width(nx), b, v);
    SameButZ(NodeBits(nl, env, v, n, b), {Vz}, {V1});
    ResolveIgnoresZ(NodeBits(nl, env, v, n, b) + {V1}, {Vz} + {V1});
    assert Resolve({Vz} + {V1}) == V1;
    assert V0 in {V0} + {V1} && V1 in {V0} + {V1};
    assert Resolve({V0} + {V1}) == Vx;
  }

  // ----- when the step applies

  predicate Apart(p: Node, q: Node)
    requires IsPart(p) && IsPart(q)
  {
    p.base + p.width <= q.base || q.base + q.width <= p.base
  }

  /** Only parts drive the nexus, enough of them, pairwise apart and inside the vector. */
  ghost predicate CanFuse(nl: Netlist, n: NexusId)
    requires Listed(nl)
  {
    && n in nl.nexa
    && (forall i | 0 <= i < |nl.nexa[n].nets| :: nl.nexa[n].nets[i].kind.PlainWire?)
    && var ids := Drivers(nl.nodes, nl.order, n);
    && (forall id | id in ids :: IsPart(nl.nodes[id]))
    && |ids| >= (if TwoState(nl.nexa[n]) then 1 else 2)
    && (forall d, e | d in ids && e in ids && d != e :: Apart(nl.nodes[d], nl.nodes[e]))
    && forall d | d in ids :: nl.nodes[d].base + nl.nodes[d].width <= Width(nl.nexa[n])
  }

  /** Comparing neighbours and the last end is enough to tell whether a list is tiled. */
  lemma {:induction false} TiledByNeighbours(parts: seq<Node>, off: nat, size: nat)
    requires AllParts(parts) && parts != [] && off <= parts[0].base
    ensures Tiled(parts, off, size) <==>
      && (forall i | 1 <= i < |parts| :: parts[i - 1].base + parts[i - 1].width <= parts[i].base)
      && parts[|parts| - 1].base + parts[|parts| - 1].width <= size
  {
    if |parts| > 1 {
      var rest, end := parts[1..], parts[0].base + parts[0].width;
      assert forall i | 0 <= i < |rest| :: rest[i] == parts[i + 1];
      if end <= rest[0].base {
        TiledByNeighbours(rest, end, size);
        assert forall i | 2 <= i < |parts| :: parts[i] == rest[i - 1];
      }
    } else {
      assert Tiled(parts[1..], parts[0].base + parts[0].width, size) <==> parts[0].base + parts[0].width <= size;
    }
  }

  /** Sorted and apart from its neighbour means apart from every other part. */
  lemma {:induction false} TiledApart(parts: seq<Node>, off: nat, size: nat, i: nat, j: nat)
    requires AllParts(parts) && Tiled(parts, off, size) && i < j < |parts|
    ensures off <= parts[i].base
    ensures parts[i].base + parts[i].width <= parts[j].base
    ensures parts[j].base + parts[j].width <= size
  {
    var rest, end := parts[1..], parts[0].base + parts[0].width;
    if i > 0 {
      TiledApart(rest, end, size, i - 1, j - 1);
    } else if j > 1 {
      TiledApart(rest, end, size, 0, j - 1);
    } else {
      TiledFits(rest, end, size);
    }
  }

  ghost predicate PartIds(nodes: map<NodeId, Node>, ids: seq<NodeId>) {
    forall i | 0 <= i < |ids| :: ids[i] in nodes && IsPart(nodes[ids[i]])
  }

  ghost predicate SortedByBase(nodes: map<NodeId, Node>, ids: seq<NodeId>)
    requires PartIds(nodes, ids)
  {
    forall i, j | 0 <= i < j < |ids| :: nodes[ids[i]].base <= nodes[ids[j]].base
  }

  function InsertByBase(nodes: map<NodeId, Node>, id: NodeId, ids: seq<NodeId>): (r: seq<NodeId>)
    requires id in nodes && IsPart(nodes[id]) && PartIds(nodes, ids)
    ensures multiset(r) == multiset(ids) + multiset{id} && PartIds(nodes, r)
  {
    if ids == [] then [id]
    else if nodes[id].base < nodes[ids[0]].base then [id] + ids
    else
      assert ids == [ids[0]] + ids[1..];
      [ids[0]] + InsertByBase(nodes, id, ids[1..])
  }

  lemma {:induction false} InsertSorted(nodes: map<NodeId, Node>, id: NodeId, ids: seq<NodeId>)
    requires id in nodes && IsPart(nodes[id]) && PartIds(nodes, ids) && SortedByBase(nodes, ids)
    ensures SortedByBase(nodes, InsertByBase(nodes, id, ids))
  {
    if ids != [] && nodes[id].base >= nodes[ids[0]].base {
      InsertSorted(nodes, id, ids[1..]);
      var r := InsertByBase(nodes, id, ids[1..]);
      forall j | 0 <= j < |r| ensures nodes[ids[0]].base <= nodes[r[j]].base {
        InsertedFrom(nodes, id, ids[1..], j);
        if r[j] != id {
          var i :| 0 <= i < |ids[1..]| && ids[1..][i] == r[j];
          assert ids[i + 1] == r[j];
        }
      }
    }
  }

  lemma InsertedFrom(nodes: map<NodeId, Node>, id: NodeId, ids: seq<NodeId>, j: nat)
    requires id in nodes && IsPart(nodes[id]) && PartIds(nodes, ids) && j < |InsertByBase(nodes, id, ids)|
    ensures InsertByBase(nodes, id, ids)[j] == id || InsertByBase(nodes, id, ids)[j] in ids
  {
    hide InsertByBase, PartIds;
    assert InsertByBase(nodes, id, ids)[j] in multiset(ids) + multiset{id};
  }

  /** The library sort by increasing base. */
  function SortByBase(nodes: map<NodeId, Node>, ids: seq<NodeId>): (r: seq<NodeId>)
    requires PartIds(nodes, ids)
    ensures multiset(r) == multiset(ids) && PartIds(nodes, r)
  {
    if ids == [] then []
    else
      assert ids == [ids[0]] + ids[1..];
      InsertByBase(nodes, ids[0], SortByBase(nodes, ids[1..]))
  }

  lemma {:induction false} SortSorts(nodes: map<NodeId, Node>, ids: seq<NodeId>)
    requires PartIds(nodes, ids)
    ensures SortedByBase(nodes, SortByBase(nodes, ids))
  {
    if ids != [] {
      SortSorts(nodes, ids[1..]);
      InsertSorted(nodes, ids[0], SortByBase(nodes, ids[1..]));
    }
  }
}
