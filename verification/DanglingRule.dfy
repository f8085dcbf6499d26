/** The clean-up after propagation: constants that drive nothing but high impedance, or
    that nobody can see, are removed. */
module DanglingRule {
  import opened FourState
  import opened Netlists
  import opened ConstantRules

  predicate HasReader(nl: Netlist, n: NexusId) {
    exists id | id in nl.nodes :: n in Ins(nl.nodes[id])
  }

  /** The user may look at the net: it is a named signal, an expression reads it, or it is
      a port of the root module. */
  predicate Observable(net: Net) {
    !net.local || net.erefs > 0 || (net.port != NotAPort && net.inRoot)
  }

  predicate Live(nl: Netlist, n: NexusId)
    requires n in nl.nexa
  {
    HasReader(nl, n) || exists i | 0 <= i < |nl.nexa[n].nets| :: Observable(nl.nexa[n].nets[i])
  }

  predicate Dangling(nl: Netlist, id: NodeId)
    requires id in nl.nodes && Out(nl.nodes[id]) in nl.nexa
  {
    nl.nodes[id].Const? && (AllZ(nl.nodes[id].value) || !Live(nl, Out(nl.nodes[id])))
  }

  ghost function LiveNexa(nl: Netlist): set<NexusId> {
    set n | n in nl.nexa && Live(nl, n)
  }

  /** Valuations of `a` and of `b` agree on the nexuses `seen`: each valuation of the one is
      matched by a valuation of the other. */
  ghost predicate SameOn(a: Netlist, b: Netlist, seen: set<NexusId>) {
    && b.nexa == a.nexa
    && (forall env: Env, v: Valuation | Consistent(a, env, v) :: Matched(b, env, v, seen))
    && (forall env: Env, v: Valuation | Consistent(b, env, v) :: Matched(a, env, v, seen))
  }

  ghost predicate Matched(nl: Netlist, env: Env, v: Valuation, seen: set<NexusId>) {
    exists w: Valuation :: Consistent(nl, env, w) && forall n | n in seen :: n in v && n in w && w[n] == v[n]
  }

  // ----- recomputing what nobody sees

  /** Only nexuses in `seen` are read, and they are driven alike in both netlists. */
  ghost predicate DrivenAlike(a: Netlist, b: Netlist, seen: set<NexusId>) {
    && b.nexa == a.nexa
    && seen <= a.nexa.Keys
    && (forall id, n | id in b.nodes && n in Ins(b.nodes[id]) :: n in seen)
    && forall env: Env, v: Valuation, n, b': nat
         {:trigger NodeBits(a, env, v, n, b')} {:trigger NodeBits(b, env, v, n, b')}
         | n in seen :: NodeBits(a, env, v, n, b') - {Vz} == NodeBits(b, env, v, n, b') - {Vz}
  }

  ghost function SettledBits(nl: Netlist, env: Env, v: Valuation, n: NexusId): (r: Vec)
    requires n in nl.nexa
    ensures |r| == Width(nl.nexa[n]) && forall b | 0 <= b < |r| :: r[b] == NexusBit(nl, env, v, n, b)
  {
    seq(Width(nl.nexa[n]), b requires b >= 0 => NexusBit(nl, env, v, n, b))
  }

  ghost function Resettle(nl: Netlist, seen: set<NexusId>, env: Env, v: Valuation): Valuation
    requires v.Keys == nl.nexa.Keys
  {
    map n | n in nl.nexa :: if n in seen then v[n] else SettledBits(nl, env, v, n)
  }

  lemma UnseenInputs(nl: Netlist, seen: set<NexusId>, env: Env, v: Valuation, n: NexusId, b: nat)
    requires v.Keys == nl.nexa.Keys && seen <= nl.nexa.Keys && n in nl.nexa
    requires forall id, m | id in nl.nodes && m in Ins(nl.nodes[id]) :: m in seen
    ensures NexusBit(nl, env, Resettle(nl, seen, env, v), n, b) == NexusBit(nl, env, v, n, b)
  {
    var w := Resettle(nl, seen, env, v);
    forall id | id in nl.nodes
      ensures OutBit(env, id, nl.nodes[id], w, b) == OutBit(env, id, nl.nodes[id], v, b)
    {
      OutBitReads(env, id, nl.nodes[id], w, v, b);
    }
    assert NodeBits(nl, env, w, n, b) == NodeBits(nl, env, v, n, b);
  }

  lemma SeenBit(a: Netlist, b: Netlist, seen: set<NexusId>, env: Env, v: Valuation, n: NexusId, i: nat)
    requires DrivenAlike(a, b, seen) && n in seen
    ensures NexusBit(a, env, v, n, i) == NexusBit(b, env, v, n, i)
  {
    var outside := OutsideBits(a.nexa[n], env, n, i);
    var s, t := NodeBits(a, env, v, n, i), NodeBits(b, env, v, n, i);
    assert (s + outside) - {Vz} == (s - {Vz}) + (outside - {Vz});
    assert (t + outside) - {Vz} == (t - {Vz}) + (outside - {Vz});
    ResolveIgnoresZ(s + outside, t + outside);
  }

  lemma ResettleConsistent(a: Netlist, b: Netlist, seen: set<NexusId>, env: Env, v: Valuation)
    requires DrivenAlike(a, b, seen) && Consistent(a, env, v)
    ensures Consistent(b, env, Resettle(b, seen, env, v))
  {
    var w := Resettle(b, seen, env, v);
    forall n | n in b.nexa ensures SettledAt(b, env, w, n) {
      forall i | 0 <= i < |w[n]| ensures w[n][i] == NexusBit(b, env, w, n, i) {
        UnseenInputs(b, seen, env, v, n, i);
        if n in seen {
          assert SettledAt(a, env, v, n);
          SeenBit(a, b, seen, env, v, n, i);
        }
      }
      assert SettledAt(a, env, v, n);
    }
  }

  lemma AlikeMatches(a: Netlist, b: Netlist, seen: set<NexusId>, env: Env, v: Valuation)
    requires DrivenAlike(a, b, seen) && Consistent(a, env, v)
    ensures Matched(b, env, v, seen)
  {
    ResettleConsistent(a, b, seen, env, v);
    var w := Resettle(b, seen, env, v);
    assert Consistent(b, env, w) && forall n | n in seen :: n in v && n in w && w[n] == v[n];
  }

  // ----- removing dangling constants

  /** Removing any set of dangling constants leaves every value that is read or can be
      observed as it was. */
  lemma RemovalKeepsLive(nl: Netlist, nl': Netlist, gone: set<NodeId>)
    requires Wellformed(nl) && nl'.nexa == nl.nexa && nl'.nodes == nl.nodes - gone
    requires forall id | id in gone :: id in nl.nodes && Out(nl.nodes[id]) in nl.nexa && Dangling(nl, id)
    ensures SameOn(nl, nl', LiveNexa(nl))
  {
    var seen := LiveNexa(nl);
    forall id, n | id in nl.nodes && n in Ins(nl.nodes[id]) ensures n in seen {
      assert NodeOk(nl.nexa, nl.nodes[id]);
      assert HasReader(nl, n);
    }
    forall env: Env, v: Valuation, n, b: nat | n in seen
      ensures NodeBits(nl, env, v, n, b) - {Vz} == NodeBits(nl', env, v, n, b) - {Vz}
    {
      forall x | x in NodeBits(nl, env, v, n, b) - {Vz} ensures x in NodeBits(nl', env, v, n, b) {
        var id :| id in nl.nodes && Out(nl.nodes[id]) == n && x == OutBit(env, id, nl.nodes[id], v, b);
        assert id !in gone;
        assert id in nl'.nodes;
      }
    }
    assert DrivenAlike(nl, nl', seen) && DrivenAlike(nl', nl, seen);
    forall env: Env, v: Valuation | Consistent(nl, env, v) ensures Matched(nl', env, v, seen) {
      AlikeMatches(nl, nl', seen, env, v);
    }
    forall env: Env, v: Valuation | Consistent(nl', env, v) ensures Matched(nl, env, v, seen) {
      AlikeMatches(nl', nl, seen, env, v);
    }
  }

  /** Removing one constant neither makes nor unmakes another dangling, so the constants
      that survive do not depend on the order of removal. */
  lemma RemovalIndependent(nl: Netlist, nl': Netlist, gone: set<NodeId>, id: NodeId)
    requires nl'.nexa == nl.nexa && nl'.nodes == nl.nodes - gone
    requires forall m | m in gone :: m in nl.nodes && nl.nodes[m].Const?
    requires id in nl'.nodes && Out(nl.nodes[id]) in nl.nexa
    ensures Dangling(nl', id) <==> Dangling(nl, id)
  {
    var n := Out(nl.nodes[id]);
    if HasReader(nl, n) {
      var m :| m in nl.nodes && n in Ins(nl.nodes[m]);
      assert m !in gone;
      assert m in nl'.nodes;
    }
  }
}
