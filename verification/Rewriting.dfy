/** Two ways of changing a netlist without changing its meaning: adding a constant on a
    net of its own, and replacing the drivers of one nexus by drivers of equal effect. */
module Rewriting {
  import opened FourState
  import opened Netlists

  /** The nodes among `ids` whose output is linked to nexus `n`, in list order. */
  function Drivers(nodes: map<NodeId, Node>, ids: seq<NodeId>, n: NexusId): (r: seq<NodeId>)
    requires forall id | id in ids :: id in nodes
    ensures forall id | id in r :: id in nodes && Out(nodes[id]) == n
  {
    if ids == [] then []
    else (if Out(nodes[ids[0]]) == n then [ids[0]] else []) + Drivers(nodes, ids[1..], n)
  }

  lemma {:induction false} DriversAre(nodes: map<NodeId, Node>, ids: seq<NodeId>, n: NexusId)
    requires forall id | id in ids :: id in nodes
    ensures forall id :: id in Drivers(nodes, ids, n) <==> id in ids && Out(nodes[id]) == n
    ensures NoDuplicates(ids) ==> NoDuplicates(Drivers(nodes, ids, n))
  {
    if ids != [] {
      var rest := ids[1..];
      DriversAre(nodes, rest, n);
      assert NoDuplicates(ids) ==> NoDuplicates(rest) && ids[0] !in rest;
    }
  }

  // ----- replacing the drivers of one nexus

  /** `v` is settled everywhere except perhaps at `n`. */
  ghost predicate SettledElsewhere(nl: Netlist, env: Env, v: Valuation, n: NexusId)
    requires n in nl.nexa
  {
    && v.Keys == nl.nexa.Keys
    && |v[n]| == Width(nl.nexa[n])
    && forall m | m in nl.nexa && m != n :: SettledAt(nl, env, v, m)
  }

  ghost predicate SameDrive(nl: Netlist, nl': Netlist, n: NexusId, env: Env, v: Valuation)
    requires n in nl.nexa && nl'.nexa == nl.nexa
  {
    SettledElsewhere(nl, env, v, n) ==>
      forall b | 0 <= b < |v[n]| :: NexusBit(nl, env, v, n, b) == NexusBit(nl', env, v, n, b)
  }

  ghost predicate OthersKept(nl: Netlist, nl': Netlist, n: NexusId) {
    && (forall id | id in nl.nodes && Out(nl.nodes[id]) != n :: id in nl'.nodes && nl'.nodes[id] == nl.nodes[id])
    && (forall id | id in nl'.nodes && Out(nl'.nodes[id]) != n :: id in nl.nodes && nl'.nodes[id] == nl.nodes[id])
  }

  lemma SwapDrivers(nl: Netlist, nl': Netlist, n: NexusId)
    requires n in nl.nexa && nl'.nexa == nl.nexa && OthersKept(nl, nl', n)
    requires forall env: Env, v: Valuation :: SameDrive(nl, nl', n, env, v)
    ensures SameMeaning(nl, nl', map[])
  {
    forall env: Env, v: Valuation
      ensures Agree(nl.nexa.Keys, map[], Meaning(nl, env), Meaning(nl', env), v)
    {
      assert v + map[] == v;
      assert SameDrive(nl, nl', n, env, v);
      forall m | m in nl.nexa && m != n
        ensures SettledAt(nl, env, v, m) <==> SettledAt(nl', env, v, m)
      {
        forall b: nat ensures NexusBit(nl, env, v, m, b) == NexusBit(nl', env, v, m, b) {
          assert NodeBits(nl, env, v, m, b) == NodeBits(nl', env, v, m, b);
        }
      }
    }
  }

  // ----- a constant on a net of its own

  /** The local 4-state net that a filler constant is given. */
  function FillNexus(width: nat, inRoot: bool): Nexus {
    Nexus([Net(width, false, PlainWire, true, 0, 0, NotAPort, inRoot)], false)
  }

  ghost predicate HoldsConst(nl: Netlist, k: NexusId, value: Vec) {
    && k in nl.nexa
    && (exists inRoot :: nl.nexa[k] == FillNexus(|value|, inRoot))
    && (exists id :: id in nl.nodes && Out(nl.nodes[id]) == k)
    && forall id | id in nl.nodes && Out(nl.nodes[id]) == k :: nl.nodes[id] == Const(value, k)
  }

  ghost predicate FillsHeld(nl: Netlist, fills: Valuation) {
    forall k | k in fills :: HoldsConst(nl, k, fills[k])
  }

  lemma HoldsConstBit(nl: Netlist, k: NexusId, value: Vec, env: Env, v: Valuation, b: nat)
    requires HoldsConst(nl, k, value) && b < |value|
    ensures NexusBit(nl, env, v, k, b) == value[b]
  {
    var id :| id in nl.nodes && Out(nl.nodes[id]) == k;
    assert OutBit(env, id, nl.nodes[id], v, b) == value[b];
    assert NodeBits(nl, env, v, k, b) == {value[b]};
    var nx := nl.nexa[k];
    assert !External(nx) && !TwoState(nx) && Supplies(nx) == {} && Pulls(nx) == {};
    assert {value[b]} + {} == {value[b]};
  }

  lemma HoldsConstValue(nl: Netlist, k: NexusId, value: Vec, env: Env, v: Valuation)
    requires HoldsConst(nl, k, value)
    ensures SettledAt(nl, env, v, k) <==> k in v && v[k] == value
  {
    forall b: nat | b < |value| ensures NexusBit(nl, env, v, k, b) == value[b] {
      HoldsConstBit(nl, k, value, env, v, b);
    }
  }

  function WithConst(nl: Netlist, id: NodeId, k: NexusId, value: Vec, inRoot: bool): Netlist {
    Netlist(nl.order + [id], nl.nodes[id := Const(value, k)], nl.nexa[k := FillNexus(|value|, inRoot)])
  }

  /** `nl'` is `nl` with new nexuses, each holding a constant of its own. */
  ghost predicate Filled(nl: Netlist, nl': Netlist, fills: Valuation) {
    && fills.Keys !! nl.nexa.Keys
    && nl'.nexa.Keys == nl.nexa.Keys + fills.Keys
    && (forall n | n in nl.nexa :: nl'.nexa[n] == nl.nexa[n])
    && (forall id | id in nl.nodes :: id in nl'.nodes && nl'.nodes[id] == nl.nodes[id])
    && (forall id | id in nl'.nodes && id !in nl.nodes :: nl'.nodes[id].Const? && nl'.nodes[id].out in fills)
    && FillsHeld(nl', fills)
  }

  /** Constants on new nets extend every consistent valuation in exactly one way. */
  lemma FilledMeaning(nl: Netlist, nl': Netlist, fills: Valuation)
    requires Wellformed(nl) && Filled(nl, nl', fills)
    ensures SameMeaning(nl, nl', fills)
  {
    hide Wellformed, HoldsConst, Consistent;
    forall env: Env
      ensures ExtendsBy(nl.nexa.Keys, fills, Meaning(nl, env), Meaning(nl', env))
    {
      forall v: Valuation ensures Agree(nl.nexa.Keys, fills, Meaning(nl, env), Meaning(nl', env), v) {
        FilledAgree(nl, nl', fills, env, v);
      }
    }
  }

  lemma FilledAgree(nl: Netlist, nl': Netlist, fills: Valuation, env: Env, v: Valuation)
    requires Wellformed(nl) && Filled(nl, nl', fills)
    ensures Agree(nl.nexa.Keys, fills, Meaning(nl, env), Meaning(nl', env), v)
  {
    hide Wellformed, HoldsConst, SettledAt;
    FilledValues(nl', fills, env, v);
    if v.Keys == nl.nexa.Keys {
      FilledValues(nl', fills, env, v + fills);
      FilledElsewhere(nl, nl', fills, env, v);
    }
  }

  lemma FilledValues(nl: Netlist, fills: Valuation, env: Env, v: Valuation)
    requires FillsHeld(nl, fills)
    ensures forall k | k in fills :: k in nl.nexa && (SettledAt(nl, env, v, k) <==> k in v && v[k] == fills[k])
  {
    forall k | k in fills
      ensures k in nl.nexa && (SettledAt(nl, env, v, k) <==> k in v && v[k] == fills[k])
    {
      HoldsConstValue(nl, k, fills[k], env, v);
    }
  }

  lemma FilledElsewhere(nl: Netlist, nl': Netlist, fills: Valuation, env: Env, v: Valuation)
    requires Wellformed(nl) && Filled(nl, nl', fills) && v.Keys == nl.nexa.Keys
    ensures forall n | n in nl.nexa :: SettledAt(nl, env, v, n) <==> SettledAt(nl', env, v + fills, n)
  {
    hide Wellformed, HoldsConst, FillsHeld;
    forall n, b: nat | n in nl.nexa ensures NexusBit(nl, env, v, n, b) == NexusBit(nl', env, v + fills, n, b) {
      FilledBits(nl, nl', fills, env, v, n, b);
    }
  }

  lemma FilledBits(nl: Netlist, nl': Netlist, fills: Valuation, env: Env, v: Valuation, n: NexusId, b: nat)
    requires Wellformed(nl) && Filled(nl, nl', fills) && v.Keys == nl.nexa.Keys && n in nl.nexa
    ensures NodeBits(nl, env, v, n, b) == NodeBits(nl', env, v + fills, n, b)
  {
    hide FillsHeld, OutBit;
    var w := v + fills;
    forall m | m in nl.nodes ensures OutBit(env, m, nl.nodes[m], v, b) == OutBit(env, m, nl'.nodes[m], w, b) {
      assert NodeOk(nl.nexa, nl.nodes[m]);
      OutBitReads(env, m, nl.nodes[m], v, w, b);
    }
  }

  lemma AddConst(nl: Netlist, id: NodeId, k: NexusId, value: Vec, inRoot: bool)
    requires Wellformed(nl) && id !in nl.nodes && k !in nl.nexa && |value| >= 1
    ensures var nl' := WithConst(nl, id, k, value, inRoot);
      && Wellformed(nl')
      && HoldsConst(nl', k, value)
      && SameMeaning(nl, nl', map[k := value])
      && forall j, w | HoldsConst(nl, j, w) :: HoldsConst(nl', j, w)
  {
    hide Wellformed, HoldsConst, SameMeaning;
    var nl' := WithConst(nl, id, k, value, inRoot);
    AddConstWellformed(nl, id, k, value, inRoot);
    AddConstHolds(nl, id, k, value, inRoot);
    assert FillsHeld(nl', map[k := value]);
    FilledMeaning(nl, nl', map[k := value]);
  }

  lemma AddConstHolds(nl: Netlist, id: NodeId, k: NexusId, value: Vec, inRoot: bool)
    requires Wellformed(nl) && id !in nl.nodes && k !in nl.nexa
    ensures HoldsConst(WithConst(nl, id, k, value, inRoot), k, value)
    ensures forall j, w | HoldsConst(nl, j, w) :: HoldsConst(WithConst(nl, id, k, value, inRoot), j, w)
  {
    var nl' := WithConst(nl, id, k, value, inRoot);
    assert nl'.nodes[id] == Const(value, k) && Out(nl'.nodes[id]) == k;
    assert forall m | m in nl.nodes :: nl'.nodes[m] == nl.nodes[m] && Out(nl.nodes[m]) in nl.nexa;
    forall j, w | HoldsConst(nl, j, w) ensures HoldsConst(nl', j, w) {
      var m :| m in nl.nodes && Out(nl.nodes[m]) == j;
      assert m in nl'.nodes && Out(nl'.nodes[m]) == j;
    }
  }

  lemma {:induction false} SumWidthsGrows(nexa: map<NexusId, Nexus>, nexa': map<NexusId, Nexus>, ins: seq<NexusId>)
    requires forall n | n in ins :: n in nexa
    requires forall n | n in nexa :: n in nexa' && nexa'[n] == nexa[n]
    ensures SumWidths(nexa', ins) == SumWidths(nexa, ins)
  {
    if ins != [] {
      SumWidthsGrows(nexa, nexa', ins[1..]);
    }
  }

  lemma AddConstWellformed(nl: Netlist, id: NodeId, k: NexusId, value: Vec, inRoot: bool)
    requires Wellformed(nl) && id !in nl.nodes && k !in nl.nexa && |value| >= 1
    ensures Wellformed(WithConst(nl, id, k, value, inRoot))
  {
    var nl' := WithConst(nl, id, k, value, inRoot);
    forall m | m in nl'.nodes ensures NodeOk(nl'.nexa, nl'.nodes[m]) {
      if m != id && nl.nodes[m].Concat? {
        SumWidthsGrows(nl.nexa, nl'.nexa, nl.nodes[m].ins);
      }
    }
    assert id !in nl.order;
  }
}
