/** Type elaboration: a depth-first search of the type graph that marks the types it is in the
    middle of and caches the results, for the types of one scope. */
module TypeElaboration {
  import opened TypeModel

  type Cache = map<TypeId, NetType>

  // ----- cycles

  ghost predicate Reachable(types: Types, root: TypeId, t: TypeId) {
    exists p :: Walk(types, p) && p[0] == root && p[|p| - 1] == t
  }

  /** Some way down from `t` comes back to it. */
  ghost predicate OnCycle(types: Types, t: TypeId) {
    exists p :: Walk(types, p) && |p| > 1 && p[0] == t && p[|p| - 1] == t
  }

  lemma CycleReaches(types: Types, t: TypeId)
    requires OnCycle(types, t)
    ensures ReachesCycle(types, t)
  {
    var p :| Walk(types, p) && |p| > 1 && p[0] == t && p[|p| - 1] == t;
    assert Repeats(p);
  }

  lemma WalkOn(types: Types, p: seq<TypeId>, q: seq<TypeId>)
    requires Walk(types, p) && Walk(types, q) && p[|p| - 1] == q[0]
    ensures Walk(types, p + q[1..]) && (p + q[1..])[0] == p[0]
    ensures (p + q[1..])[|p| - 1..] == q
  {
    var r := p + q[1..];
    forall i | 0 <= i < |r| - 1 ensures Step(types, r[i], r[i + 1]) {
      if i < |p| - 1 {
        assert Step(types, p[i], p[i + 1]);
      } else {
        assert Step(types, q[i - |p| + 1], q[i - |p| + 2]);
      }
    }
  }

  /** A type from which a cycle can be reached reaches it from wherever it can be reached itself. */
  lemma ReachesOn(types: Types, root: TypeId, t: TypeId)
    requires Reachable(types, root, t) && ReachesCycle(types, t)
    ensures ReachesCycle(types, root)
  {
    var p :| Walk(types, p) && p[0] == root && p[|p| - 1] == t;
    var q :| Walk(types, q) && q[0] == t && Repeats(q);
    WalkOn(types, p, q);
    var r, k := p + q[1..], |p| - 1;
    var i, j :| 0 <= i < j < |q| && q[i] == q[j];
    assert r[k..][i] == r[k + i] && r[k..][j] == r[k + j];
    assert r[k + i] == r[k + j];
  }

  lemma StepReaches(types: Types, t: TypeId, c: TypeId)
    requires Step(types, t, c)
    ensures Reachable(types, t, c)
  {
    var p := [t, c];
    assert Walk(types, p) && p[0] == t && p[|p| - 1] == c;
  }

  lemma PartNoCycle(types: Types, t: TypeId, c: TypeId)
    requires Step(types, t, c) && !ReachesCycle(types, t)
    ensures !ReachesCycle(types, c)
  {
    StepReaches(types, t, c);
    if ReachesCycle(types, c) {
      ReachesOn(types, t, c);
    }
  }

  lemma Appended(types: Types, p: seq<TypeId>, c: TypeId)
    requires Walk(types, p) && Step(types, p[|p| - 1], c)
    ensures Walk(types, p + [c])
  {
    var q := p + [c];
    forall i | 0 <= i < |q| - 1 ensures Step(types, q[i], q[i + 1]) {
      if i < |p| - 1 {
        assert Step(types, p[i], p[i + 1]);
      }
    }
  }

  lemma ReachableOn(types: Types, t: TypeId, c: TypeId, d: TypeId)
    requires Step(types, t, c) && Reachable(types, c, d)
    ensures Reachable(types, t, d)
  {
    var q :| Walk(types, q) && q[0] == c && q[|q| - 1] == d;
    assert Walk(types, [t, c]);
    WalkOn(types, [t, c], q);
    assert ([t, c] + q[1..])[1..] == q;
  }

  /** The trail leads to `t`; if `t` is on it already, it goes round. */
  lemma TrailReaches(types: Types, trail: seq<TypeId>, t: TypeId)
    requires Walk(types, trail + [t])
    ensures Reachable(types, (trail + [t])[0], t)
    ensures t in trail ==> OnCycle(types, t)
  {
    var p := trail + [t];
    assert p[|p| - 1] == t;
    if t in trail {
      var i :| 0 <= i < |trail| && trail[i] == t;
      WalkPart(types, p, i, |p| - 1);
      var q := p[i..|p| - 1 + 1];
      assert q[0] == q[|q| - 1] == t && |q| > 1;
    }
  }

  lemma Extend(types: Types, trail: seq<TypeId>, t: TypeId, c: TypeId)
    requires Closed(types) && Walk(types, trail + [t]) && Step(types, t, c)
    ensures Walk(types, trail + [t] + [c]) && (trail + [t] + [c])[0] == (trail + [t])[0] && c in types
  {
    Appended(types, trail + [t], c);
  }

  /** Without a cycle every way down ends: no walk visits more types than there are. */
  lemma {:induction false} NoCycleBounded(types: Types, trail: seq<TypeId>, t: TypeId)
    requires Closed(types) && t in types && Walk(types, trail + [t]) && !ReachesCycle(types, (trail + [t])[0])
    requires forall c | c in trail :: c in types
    ensures |types.Keys| > |trail| && Bounded(types, t, |types.Keys| - |trail|)
    decreases |types.Keys| - |trail|
  {
    var p := trail + [t];
    assert !Repeats(p);
    DistinctFit(p, types.Keys);
    forall c | c in Children(types[t]) ensures Bounded(types, c, |types.Keys| - |trail| - 1) {
      assert Step(types, t, c);
      Extend(types, trail, t, c);
      NoCycleBounded(types, p, c);
    }
  }

  lemma {:induction false} DistinctFit(p: seq<TypeId>, s: set<TypeId>)
    requires !Repeats(p) && forall c | c in p :: c in s
    ensures |p| <= |s|
  {
    if p != [] {
      var k := |p| - 1;
      assert p[k] !in p[..k];
      forall i, j | 0 <= i < j < |p[..k]| ensures p[..k][i] != p[..k][j] {
        assert p[i] != p[j];
      }
      DistinctFit(p[..k], s - {p[k]});
    }
  }

  // ----- what has been done

  /** One elaboration of a type: what its parts were given as, and what it gave. */
  datatype Visit = Visit(t: TypeId, parts: seq<NetType>, net: NetType)

  /** `net` is given for type `t`: an integer if the type has been found to be circular, or what one of
      the first `n` visits gave. */
  ghost predicate Given(visits: seq<Visit>, n: nat, errors: seq<Error>, t: TypeId, net: NetType) {
    || (Circular(t) in errors && net == INTEGER_TYPE)
    || exists j :: 0 <= j < n && j < |visits| && visits[j].t == t && visits[j].net == net
  }

  /** Visit `i` has built its type from its parts, which were given before. */
  ghost predicate VisitOk(types: Types, errors: seq<Error>, visits: seq<Visit>, i: nat)
    requires i < |visits|
  {
    var v := visits[i];
    && v.t in types && |v.parts| == |Children(types[v.t])|
    && (forall k | 0 <= k < |v.parts| :: Given(visits, i, errors, Children(types[v.t])[k], v.parts[k]))
    && Built(types[v.t], v.net, v.parts)
  }

  ghost predicate VisitsOk(types: Types, errors: seq<Error>, visits: seq<Visit>) {
    && (forall i | 0 <= i < |visits| :: VisitOk(types, errors, visits, i))
    && forall i, j | 0 <= i < j < |visits| :: visits[i].t != visits[j].t
  }

  ghost predicate Visited(visits: seq<Visit>, t: TypeId) {
    exists i :: 0 <= i < |visits| && visits[i].t == t
  }

  ghost predicate FaultAt(types: Types, visits: seq<Visit>, i: nat, e: Error)
    requires i < |visits|
  {
    var v := visits[i];
    v.t == e.t && v.t in types && |v.parts| == |Children(types[v.t])| && Fault(e.t, types[e.t], v.parts, e)
  }

  /** `e` is something wrong with a type that has been visited. */
  ghost predicate FaultSeen(types: Types, visits: seq<Visit>, e: Error) {
    exists i :: 0 <= i < |visits| && FaultAt(types, visits, i, e)
  }

  /** A type is cached as an integer if it has been found to be circular, and otherwise as what its
      visit gave; only types on a cycle are found to be circular; and everything else that has been
      reported of a type that is not being elaborated is what is wrong with it. */
  ghost predicate SoundCache(types: Types, cache: Cache, errors: seq<Error>, visits: seq<Visit>,
                             elaborating: set<TypeId>) {
    && cache.Keys <= types.Keys
    && (forall i | 0 <= i < |visits| :: visits[i].t in cache && visits[i].t !in elaborating)
    && (forall t | t in cache :: Given(visits, |visits|, errors, t, cache[t]))
    && (forall t | Circular(t) in errors :: t in cache && cache[t] == INTEGER_TYPE && OnCycle(types, t))
    && (forall t | t in cache :: t in elaborating || Visited(visits, t))
    && forall e: Error | !e.Circular? && e.t !in elaborating :: e in errors <==> FaultSeen(types, visits, e)
  }

  /** How the elaboration of type `t` answers: with what is cached; with an integer, and a report, for a
      type that is being elaborated; and otherwise, after a visit to `t`, with what that gave. */
  ghost predicate Answered(elaborating: set<TypeId>, cache: Cache, errors: seq<Error>, visits: seq<Visit>,
                           cache': Cache, errors': seq<Error>, visits': seq<Visit>, t: TypeId, net: NetType) {
    if t in cache then
      net == cache[t] && cache' == cache && errors' == errors && visits' == visits
    else if t in elaborating then
      net == INTEGER_TYPE && errors' == errors + [Circular(t)] && visits' == visits
    else
      |visits| < |visits'| && visits'[|visits'| - 1].t == t && visits'[|visits'| - 1].net == net
  }

  ghost predicate Grown(a: Cache, b: Cache) {
    forall t | t in a :: t in b && b[t] == a[t]
  }

  lemma GivenOn(visits: seq<Visit>, n: nat, errors: seq<Error>, visits': seq<Visit>, n': nat, errors': seq<Error>,
                t: TypeId, net: NetType)
    requires Given(visits, n, errors, t, net) && visits <= visits' && n <= n' && errors <= errors'
    ensures Given(visits', n', errors', t, net)
  {
    if Circular(t) in errors {
      assert Circular(t) in errors';
    }
    if j :| 0 <= j < n && j < |visits| && visits[j].t == t && visits[j].net == net {
      assert visits'[j] == visits[j];
    }
  }

  lemma VisitsOn(types: Types, errors: seq<Error>, visits: seq<Visit>, errors': seq<Error>)
    requires VisitsOk(types, errors, visits) && errors <= errors'
    ensures VisitsOk(types, errors', visits)
  {
    hide Given, Built;
    forall i | 0 <= i < |visits| ensures VisitOk(types, errors', visits, i) {
      assert VisitOk(types, errors, visits, i);
      var v := visits[i];
      forall k | 0 <= k < |v.parts| ensures Given(visits, i, errors', Children(types[v.t])[k], v.parts[k]) {
        GivenOn(visits, i, errors, visits, i, errors', Children(types[v.t])[k], v.parts[k]);
      }
    }
  }

  /** A circular definition is reported, and an integer cached. */
  lemma FoundCircular(types: Types, cache: Cache, errors: seq<Error>, visits: seq<Visit>, elaborating: set<TypeId>,
                      t: TypeId)
    requires VisitsOk(types, errors, visits) && SoundCache(types, cache, errors, visits, elaborating)
    requires t in types && t in elaborating && t !in cache && OnCycle(types, t)
    ensures VisitsOk(types, errors + [Circular(t)], visits)
    ensures SoundCache(types, cache[t := INTEGER_TYPE], errors + [Circular(t)], visits, elaborating)
  {
    var errors' := errors + [Circular(t)];
    VisitsOn(types, errors, visits, errors');
    hide OnCycle, FaultSeen, Visited, Given;
    assert forall e :: e in errors' <==> e in errors || e == Circular(t);
    forall u | u in cache ensures Given(visits, |visits|, errors', u, cache[u]) {
      GivenOn(visits, |visits|, errors, visits, |visits|, errors', u, cache[u]);
    }
    assert Given(visits, |visits|, errors', t, INTEGER_TYPE) by { TurnedInteger(visits, |visits|, errors', t); }
  }

  lemma TurnedInteger(visits: seq<Visit>, n: nat, errors: seq<Error>, t: TypeId)
    requires Circular(t) in errors
    ensures Given(visits, n, errors, t, INTEGER_TYPE)
  {
  }

  /** Something is reported of a type that is being elaborated. */
  lemma Complained(types: Types, cache: Cache, errors: seq<Error>, visits: seq<Visit>, elaborating: set<TypeId>,
                   t: TypeId, errors': seq<Error>)
    requires VisitsOk(types, errors, visits) && SoundCache(types, cache, errors, visits, elaborating)
    requires t in elaborating && errors <= errors'
    requires forall e | e in errors' && e !in errors :: e.t == t && !e.Circular?
    ensures VisitsOk(types, errors', visits) && SoundCache(types, cache, errors', visits, elaborating)
  {
    VisitsOn(types, errors, visits, errors');
    hide OnCycle, FaultSeen, Visited, Given;
    assert forall e | e in errors :: e in errors';
    forall u | u in cache ensures Given(visits, |visits|, errors', u, cache[u]) {
      GivenOn(visits, |visits|, errors, visits, |visits|, errors', u, cache[u]);
    }
  }

  /** What elaborating type `t` has given: `net`, from `parts`, and reports of what is wrong. */
  ghost predicate Gives(types: Types, errors: seq<Error>, visits: seq<Visit>, t: TypeId, parts: seq<NetType>,
                        net: NetType)
    requires t in types
  {
    && |parts| == |Children(types[t])|
    && (forall k | 0 <= k < |parts| :: Given(visits, |visits|, errors, Children(types[t])[k], parts[k]))
    && Built(types[t], net, parts)
    && forall e: Error | e.t == t && !e.Circular? :: e in errors <==> Fault(t, types[t], parts, e)
  }

  /** A visit ends: the type is no longer being elaborated, and is cached if it has not been before. */
  lemma VisitEnds(types: Types, cache: Cache, errors: seq<Error>, visits: seq<Visit>, elaborating: set<TypeId>,
                  t: TypeId, parts: seq<NetType>, net: NetType)
    requires VisitsOk(types, errors, visits) && SoundCache(types, cache, errors, visits, elaborating + {t})
    requires t in types && t !in elaborating && Gives(types, errors, visits, t, parts, net)
    ensures var more := visits + [Visit(t, parts, net)];
      && VisitsOk(types, errors, more)
      && SoundCache(types, if t in cache then cache else cache[t := net], errors, more, elaborating)
      && Given(more, |more|, errors, t, net)
  {
    hide OnCycle, Built, Fault;
    var more := visits + [Visit(t, parts, net)];
    assert more[|visits|] == Visit(t, parts, net);
    MoreVisits(types, errors, visits, t, parts, net);
    MoreFaults(types, errors, visits, t, parts, net, elaborating);
    hide Given, FaultSeen, VisitsOk;
    var cache' := if t in cache then cache else cache[t := net];
    forall u | u in cache' ensures Given(more, |more|, errors, u, cache'[u]) {
      if u in cache {
        GivenOn(visits, |visits|, errors, more, |more|, errors, u, cache[u]);
      }
    }
    forall u | u in cache' ensures u in elaborating || Visited(more, u) {
      if u in cache && Visited(visits, u) {
        var i :| 0 <= i < |visits| && visits[i].t == u;
        assert more[i].t == u;
      }
    }
  }

  lemma MoreVisits(types: Types, errors: seq<Error>, visits: seq<Visit>, t: TypeId, parts: seq<NetType>, net: NetType)
    requires VisitsOk(types, errors, visits) && t in types && Gives(types, errors, visits, t, parts, net)
    requires forall i | 0 <= i < |visits| :: visits[i].t != t
    ensures VisitsOk(types, errors, visits + [Visit(t, parts, net)])
    ensures var more := visits + [Visit(t, parts, net)]; Given(more, |more|, errors, t, net)
  {
    var more := visits + [Visit(t, parts, net)];
    assert more[|visits|] == Visit(t, parts, net);
    assert Given(more, |more|, errors, t, net);
    hide Given, Built, Fault;
    forall i | 0 <= i < |more| ensures VisitOk(types, errors, more, i) {
      var v := more[i];
      if i < |visits| {
        assert VisitOk(types, errors, visits, i) && visits[i] == v;
      }
      forall k | 0 <= k < |v.parts| ensures Given(more, i, errors, Children(types[v.t])[k], v.parts[k]) {
        GivenOn(visits, i, errors, more, i, errors, Children(types[v.t])[k], v.parts[k]);
      }
    }
  }

  lemma MoreFaults(types: Types, errors: seq<Error>, visits: seq<Visit>, t: TypeId, parts: seq<NetType>, net: NetType,
                   elaborating: set<TypeId>)
    requires t in types && Gives(types, errors, visits, t, parts, net)
    requires forall i | 0 <= i < |visits| :: visits[i].t != t
    requires forall e: Error | !e.Circular? && e.t !in elaborating + {t} :: e in errors <==> FaultSeen(types, visits, e)
    ensures forall e: Error | !e.Circular? && e.t !in elaborating ::
              e in errors <==> FaultSeen(types, visits + [Visit(t, parts, net)], e)
  {
    hide Given, Built, Fault;
    var more := visits + [Visit(t, parts, net)];
    forall e: Error | !e.Circular? && e.t !in elaborating ensures e in errors <==> FaultSeen(types, more, e) {
      assert forall i | 0 <= i < |visits| :: FaultAt(types, more, i, e) <==> FaultAt(types, visits, i, e);
      assert FaultAt(types, more, |visits|, e) <==> e.t == t && Fault(t, types[t], parts, e);
    }
  }

  // ----- what that means for the cache

  /** A type that has been visited, and from which no type reported circular can be reached, has no way
      down longer than the visits before it. */
  lemma {:induction false} VisitBounded(types: Types, errors: seq<Error>, visits: seq<Visit>, i: nat)
    requires VisitsOk(types, errors, visits) && i < |visits|
    requires forall d | Circular(d) in errors :: !Reachable(types, visits[i].t, d)
    ensures Bounded(types, visits[i].t, i + 1)
  {
    hide Built, Reachable;
    var t := visits[i].t;
    assert VisitOk(types, errors, visits, i);
    forall c | c in Children(types[t]) ensures Bounded(types, c, i) {
      var k :| 0 <= k < |Children(types[t])| && Children(types[t])[k] == c;
      assert Step(types, t, c);
      StepReaches(types, t, c);
      forall d | Circular(d) in errors ensures !Reachable(types, c, d) {
        if Reachable(types, c, d) {
          ReachableOn(types, t, c, d);
        }
      }
      assert Given(visits, i, errors, c, visits[i].parts[k]);
      var j :| 0 <= j < i && visits[j].t == c;
      VisitBounded(types, errors, visits, j);
      BoundedMore(types, c, j + 1, i);
    }
  }

  lemma {:induction false} BoundedMore(types: Types, t: TypeId, n: nat, m: nat)
    requires Bounded(types, t, n) && n <= m
    ensures Bounded(types, t, m)
    decreases n
  {
    forall c | c in Children(types[t]) ensures Bounded(types, c, m - 1) {
      BoundedMore(types, c, n - 1, m - 1);
    }
  }

  /** A cached type reaches a cycle exactly if it reaches one that has been reported. */
  lemma CyclesReported(types: Types, cache: Cache, errors: seq<Error>, visits: seq<Visit>, t: TypeId)
    requires VisitsOk(types, errors, visits) && SoundCache(types, cache, errors, visits, {}) && t in cache
    ensures ReachesCycle(types, t) <==> exists d :: Circular(d) in errors && Reachable(types, t, d)
  {
    hide Built, Given, OnCycle, FaultSeen, ReachesCycle, Reachable;
    if d :| Circular(d) in errors && Reachable(types, t, d) {
      CycleReaches(types, d);
      ReachesOn(types, t, d);
    } else {
      assert Visited(visits, t);
      var i :| 0 <= i < |visits| && visits[i].t == t;
      VisitBounded(types, errors, visits, i);
      BoundedNoCycle(types, t, i + 1);
    }
  }

  /** A complete cache holds what the types it holds are made of. */
  lemma CacheStep(types: Types, cache: Cache, errors: seq<Error>, visits: seq<Visit>, t: TypeId, c: TypeId)
    requires VisitsOk(types, errors, visits) && SoundCache(types, cache, errors, visits, {})
    requires t in cache && Step(types, t, c)
    ensures c in cache
  {
    hide Built, OnCycle, FaultSeen;
    assert Visited(visits, t);
    var i :| 0 <= i < |visits| && visits[i].t == t;
    assert VisitOk(types, errors, visits, i);
    var k :| 0 <= k < |Children(types[t])| && Children(types[t])[k] == c;
    assert Given(visits, i, errors, c, visits[i].parts[k]);
  }

  /** And so everything that can be reached from them. */
  lemma {:induction false} CacheReaches(types: Types, cache: Cache, errors: seq<Error>, visits: seq<Visit>,
                                        p: seq<TypeId>)
    requires VisitsOk(types, errors, visits) && SoundCache(types, cache, errors, visits, {})
    requires Walk(types, p) && p[0] in cache
    ensures p[|p| - 1] in cache
    decreases |p|
  {
    if |p| > 1 {
      hide SoundCache, VisitsOk;
      assert Step(types, p[0], p[1]);
      CacheStep(types, cache, errors, visits, p[0], p[1]);
      WalkPart(types, p, 1, |p| - 1);
      assert p[1..|p| - 1 + 1] == p[1..];
      CacheReaches(types, cache, errors, visits, p[1..]);
    }
  }

  /** The types of the parts, as they are cached. */
  ghost function Cached(decl: TypeDecl, cache: Cache): (parts: seq<NetType>)
    requires forall c | c in Children(decl) :: c in cache
    ensures |parts| == |Children(decl)| && forall k | 0 <= k < |parts| :: parts[k] == cache[Children(decl)[k]]
  {
    seq(|Children(decl)|, k requires 0 <= k < |Children(decl)| => cache[Children(decl)[k]])
  }

  /** `e` is wrong with its type, which is cached. */
  ghost predicate FaultIn(types: Types, cache: Cache, e: Error) {
    && e.t in cache && e.t in types && (forall c | c in Children(types[e.t]) :: c in cache)
    && Fault(e.t, types[e.t], Cached(types[e.t], cache), e)
  }

  /** A type that reaches no cycle has been built from parts as they are cached. */
  lemma VisitCached(types: Types, cache: Cache, errors: seq<Error>, visits: seq<Visit>, i: nat)
    requires VisitsOk(types, errors, visits) && SoundCache(types, cache, errors, visits, {}) && i < |visits|
    requires !ReachesCycle(types, visits[i].t)
    ensures visits[i].t in types && visits[i].t in cache && cache[visits[i].t] == visits[i].net
    ensures forall c | c in Children(types[visits[i].t]) :: c in cache
    ensures visits[i].parts == Cached(types[visits[i].t], cache)
    ensures Built(types[visits[i].t], visits[i].net, visits[i].parts)
  {
    hide Built, FaultSeen, OnCycle, ReachesCycle;
    var t, parts := visits[i].t, visits[i].parts;
    assert VisitOk(types, errors, visits, i);
    NotCircular(types, cache, errors, visits, i, t, visits[i].net);
    forall k | 0 <= k < |parts|
      ensures Children(types[t])[k] in cache && parts[k] == cache[Children(types[t])[k]]
    {
      var c := Children(types[t])[k];
      assert Step(types, t, c);
      PartNoCycle(types, t, c);
      assert Given(visits, i, errors, c, parts[k]);
      if Circular(c) in errors {
        CycleReaches(types, c);
      }
      var j :| 0 <= j < i && visits[j].t == c && visits[j].net == parts[k];
      NotCircular(types, cache, errors, visits, j, c, parts[k]);
    }
    assert parts == Cached(types[t], cache);
  }

  lemma NotCircular(types: Types, cache: Cache, errors: seq<Error>, visits: seq<Visit>, i: nat, t: TypeId,
                    net: NetType)
    requires VisitsOk(types, errors, visits) && SoundCache(types, cache, errors, visits, {}) && i < |visits|
    requires visits[i].t == t && visits[i].net == net && !ReachesCycle(types, t)
    ensures t in cache && cache[t] == net
  {
    hide FaultSeen, OnCycle, ReachesCycle, VisitOk;
    if Circular(t) in errors {
      CycleReaches(types, t);
    }
    assert Given(visits, |visits|, errors, t, cache[t]);
  }

  ghost predicate BuiltIn(types: Types, cache: Cache, t: TypeId) {
    && t in types && t in cache && (forall c | c in Children(types[t]) :: c in cache)
    && Built(types[t], cache[t], Cached(types[t], cache))
  }

  /** Every cached type that reaches no cycle is what its declaration builds from the cached parts. */
  ghost predicate AllBuilt(types: Types, cache: Cache) {
    forall t | t in cache && !ReachesCycle(types, t) :: BuiltIn(types, cache, t)
  }

  /** Of the types that reach no cycle, exactly what is wrong with those cached has been reported. */
  ghost predicate AllTold(types: Types, cache: Cache, errors: seq<Error>) {
    forall e: Error | !ReachesCycle(types, e.t) :: e in errors <==> FaultIn(types, cache, e)
  }

  lemma SoundBuilt(types: Types, cache: Cache, errors: seq<Error>, visits: seq<Visit>, t: TypeId)
    requires VisitsOk(types, errors, visits) && SoundCache(types, cache, errors, visits, {})
    requires t in cache && !ReachesCycle(types, t)
    ensures BuiltIn(types, cache, t)
  {
    hide Built, FaultSeen, OnCycle, ReachesCycle, VisitOk, Given;
    assert Visited(visits, t);
    var i :| 0 <= i < |visits| && visits[i].t == t;
    VisitCached(types, cache, errors, visits, i);
  }

  lemma SoundTold(types: Types, cache: Cache, errors: seq<Error>, visits: seq<Visit>, e: Error)
    requires VisitsOk(types, errors, visits) && SoundCache(types, cache, errors, visits, {})
    requires !ReachesCycle(types, e.t)
    ensures e in errors <==> FaultIn(types, cache, e)
  {
    hide Built, Fault, OnCycle, ReachesCycle, VisitOk, Given;
    if e.Circular? {
      if e in errors {
        CycleReaches(types, e.t);
      }
      if FaultIn(types, cache, e) {
        FaultOf(e.t, types[e.t], Cached(types[e.t], cache), e);
      }
    } else if Visited(visits, e.t) {
      var i :| 0 <= i < |visits| && visits[i].t == e.t;
      VisitCached(types, cache, errors, visits, i);
      assert FaultAt(types, visits, i, e) <==> FaultIn(types, cache, e);
      assert forall j | 0 <= j < |visits| && FaultAt(types, visits, j, e) :: j == i;
    }
  }

  // ----- what the cache denotes

  /** A declaration builds one type. */
  lemma BuiltOnce(decl: TypeDecl, a: NetType, b: NetType, parts: seq<NetType>)
    requires |parts| == |Children(decl)| && Built(decl, a, parts) && Built(decl, b, parts)
    ensures a == b
  {
    if decl.StructDecl? {
      hide Wrapped, FieldIs;
      FieldsOnce(decl.members, a.fields, b.fields, parts);
    }
  }

  lemma FieldsOnce(members: seq<Member>, a: seq<Field>, b: seq<Field>, parts: seq<NetType>)
    requires |parts| == |members| && FieldsBuilt(members, a, parts) && FieldsBuilt(members, b, parts)
    ensures a == b
  {
    hide Wrapped;
    forall at | 0 <= at < |a| ensures a[at] == b[at] {
      var i, j := NameAt(members, |members|, at);
      assert FieldIs(a, NamesBefore(members, i) + j, parts[i], members[i].names[j]);
      assert FieldIs(b, NamesBefore(members, i) + j, parts[i], members[i].names[j]);
    }
  }

  lemma {:induction false} NameAt(members: seq<Member>, n: nat, at: nat) returns (i: nat, j: nat)
    requires n <= |members| && at < NamesBefore(members, n)
    ensures i < n && j < |members[i].names| && at == NamesBefore(members, i) + j
  {
    if at >= NamesBefore(members, n - 1) {
      i, j := n - 1, at - NamesBefore(members, n - 1);
    } else {
      i, j := NameAt(members, n - 1, at);
    }
  }

  /** A cached type that reaches no cycle is the one that elaboration without a cache gives. */
  lemma {:induction false} CacheDenotes(types: Types, cache: Cache, t: TypeId, n: nat)
    requires AllBuilt(types, cache) && t in cache && Bounded(types, t, n)
    ensures cache[t] == Denote(types, t, n)
    decreases n
  {
    hide Denote, Built, ReachesCycle;
    BoundedNoCycle(types, t, n);
    assert BuiltIn(types, cache, t);
    var parts := Cached(types[t], cache);
    forall k | 0 <= k < |parts|
      ensures Bounded(types, Children(types[t])[k], n - 1)
      ensures parts[k] == Denote(types, Children(types[t])[k], n - 1)
    {
      var c := Children(types[t])[k];
      assert c in Children(types[t]);
      CacheDenotes(types, cache, c, n - 1);
    }
    DenoteBuilt(types, t, n, parts);
    BuiltOnce(types[t], cache[t], Denote(types, t, n), parts);
  }

  /** `net` is what elaboration without a cache gives, however far it may go. */
  ghost predicate DenotedBy(types: Types, t: TypeId, net: NetType) {
    && (exists n :: Bounded(types, t, n))
    && forall n | Bounded(types, t, n) :: Denote(types, t, n) == net
  }

  lemma CacheDenoted(types: Types, cache: Cache, t: TypeId)
    requires AllBuilt(types, cache) && Closed(types) && t in cache && t in types && !ReachesCycle(types, t)
    ensures DenotedBy(types, t, cache[t])
  {
    hide Denote, Built, AllBuilt;
    assert Walk(types, [] + [t]) && ([] + [t])[0] == t;
    NoCycleBounded(types, [], t);
    forall n | Bounded(types, t, n) ensures Denote(types, t, n) == cache[t] {
      CacheDenotes(types, cache, t, n);
    }
  }

  // ----- the elaborator

  function ErrorSet(errors: seq<Error>): set<Error> {
    set e | e in errors
  }

  lemma NoNames(t: TypeId, isPacked: bool, net: NetType, names: seq<Declarator>)
    requires names == []
    ensures Fields(net, names) == [] && NameErrors(t, isPacked, net, names) == {}
  {
  }

  lemma NamesNext(t: TypeId, isPacked: bool, net: NetType, names: seq<Declarator>, j: nat)
    requires j < |names|
    ensures Fields(net, names[..j + 1]) ==
      Fields(net, names[..j]) + [Field(names[j].name, ArrayType(net, [], names[j].dims))]
    ensures NameErrors(t, isPacked, net, names[..j + 1]) ==
      NameErrors(t, isPacked, net, names[..j])
      + (if isPacked && names[j].hasDefault then {PackedDefault(t, names[j].name)} else {})
      + ArrayErrors(t, net, [], names[j].dims)
      + (if isPacked && !Packed(ArrayType(net, [], names[j].dims)) then {MemberNotPacked(t, names[j].name)} else {})
  {
    hide ArrayType, ArrayErrors, Packed;
    assert names[..j + 1][..j] == names[..j];
  }

  lemma DimsWrapped(base: NetType, dims: seq<Dim>)
    ensures ArrayType(base, [], dims) == Wrapped(base, dims)
    ensures dims != [] && (forall k | 0 <= k < |dims| :: dims[k].Fixed?) ==>
      var net := Wrapped(base, dims);
      && net.UnpackedArray? && |net.ranges| == |dims| && (forall k | 0 <= k < |dims| :: net.ranges[k] == dims[k].range)
      && net.elem == if base.Queue? || base.DynamicArray? then LOGIC_TYPE else base
  {
    hide ArrayType, Wrapped;
    NothingWrapped(base);
    ArrayIsWrapped(base, [], base, [], dims);
    assert [] + dims == dims;
    if dims != [] && forall k | 0 <= k < |dims| :: dims[k].Fixed? {
      RangesWrapped(base, dims);
    }
  }

  lemma ArrayFaulty(before: seq<Error>, after: seq<Error>, t: TypeId, base: NetType, dims: seq<Dim>)
    requires ErrorSet(after) == ErrorSet(before) + ArrayErrors(t, base, [], dims)
    ensures forall e ::
      e in after <==> || e in before
                      || (e == Unsupported(t) && Mixed(base, dims))
                      || (e == QueueBound(t) && BadBound(dims))
  {
    hide ArrayErrors, Mixed, BadBound;
    ArrayErrorsIff(t, base, [], dims);
    assert forall e :: e in after <==> e in ErrorSet(after);
    assert forall e :: e in before <==> e in ErrorSet(before);
  }

  lemma NamesFaulty(before: seq<Error>, after: seq<Error>, t: TypeId, isPacked: bool, net: NetType,
                    names: seq<Declarator>)
    requires ErrorSet(after) == ErrorSet(before) + NameErrors(t, isPacked, net, names)
    ensures forall e ::
      e in after <==> e in before || exists j :: 0 <= j < |names| && NameFault(t, isPacked, net, names[j], e)
  {
    hide NameErrors, NameFault;
    assert forall e :: e in after <==> e in ErrorSet(after);
    assert forall e :: e in before <==> e in ErrorSet(before);
    forall e ensures e in NameErrors(t, isPacked, net, names) <==>
                     exists j :: 0 <= j < |names| && NameFault(t, isPacked, net, names[j], e)
    {
      NameFaults(t, isPacked, net, names, e);
    }
  }

  class TypeElaborator {
    const types: Types
    /** The types whose `elaborating` flag is set. */
    var elaborating: set<TypeId>
    var cache: Cache
    var errors: seq<Error>
    /** The types elaborated so far, in the order in which that was done. */
    ghost var visits: seq<Visit>

    constructor (types: Types)
      ensures this.types == types && elaborating == {} && cache == map[] && errors == [] && visits == []
      ensures Sound()
    {
      this.types := types;
      elaborating, cache, errors, visits := {}, map[], [], [];
    }

    ghost predicate Sound()
      reads this
    {
      VisitsOk(types, errors, visits) && SoundCache(types, cache, errors, visits, elaborating)
    }

    /** `trail` leads from `root` to the type about to be elaborated and is what is marked. */
    ghost predicate OnTrail(root: TypeId, trail: seq<TypeId>, t: TypeId)
      reads this
    {
      && Closed(types) && t in types
      && Walk(types, trail + [t])
      && (trail + [t])[0] == root
      && elaborating == (set x | x in trail)
      && elaborating <= types.Keys
    }

    /** `t` is marked and about to be built; nothing has been reported of it. */
    ghost predicate Building(root: TypeId, trail: seq<TypeId>, t: TypeId)
      reads this
    {
      && Closed(types) && t in types && t !in cache
      && Walk(types, trail + [t]) && (trail + [t])[0] == root && Reachable(types, root, t)
      && elaborating == (set x | x in trail + [t]) && elaborating <= types.Keys
      && forall e: Error | e.t == t :: e in errors ==> e.Circular?
    }

    /** The flags are as before; the cache, the reports and the visits have only grown, by what can be
        reached; and nothing has been reported of the marked types but circular definitions, those in
        `own` apart. */
    twostate predicate Progress(root: TypeId, own: set<TypeId>)
      reads this
    {
      && elaborating == old(elaborating)
      && old(errors) <= errors && old(visits) <= visits && Grown(old(cache), cache)
      && (forall t | t in cache && t !in old(cache) :: Reachable(types, root, t))
      && (forall e | e in errors && e !in old(errors) :: Reachable(types, root, e.t))
      && (forall e: Error | !e.Circular? && e.t in elaborating && e.t !in own :: e in errors <==> e in old(errors))
      && Sound()
    }

    method Report(e: Error)
      modifies this`errors
      ensures errors == old(errors) + [e]
      ensures forall x :: x in errors <==> x in old(errors) || x == e
      ensures ErrorSet(errors) == ErrorSet(old(errors)) + {e}
    {
      errors := errors + [e];
      assert forall x :: x in errors <==> x in old(errors) || x == e;
    }

    /** Elaborate a type from clean flags. Every flag is cleared again, and exactly what can be reached
        is cached since. Each type was visited once, and built from parts that were visited before it or
        found to be circular; what is wrong with it has been reported, and nothing else but circular
        definitions of types on a cycle; and a cached type reaches a cycle exactly if it reaches one of
        these. The types that reach none are what their declarations build from the cached parts, and
        what elaboration without a cache gives. */
    method ElaborateRoot(t: TypeId) returns (net: NetType)
      requires Closed(types) && t in types && elaborating == {} && Sound()
      modifies this
      ensures elaborating == {} && old(errors) <= errors && old(visits) <= visits && Grown(old(cache), cache)
      ensures forall c :: c in cache <==> c in old(cache) || Reachable(types, t, c)
      ensures VisitsOk(types, errors, visits) && SoundCache(types, cache, errors, visits, {})
      ensures Answered({}, old(cache), old(errors), old(visits), cache, errors, visits, t, net)
      ensures forall e | e in errors && e !in old(errors) :: Reachable(types, t, e.t)
      ensures forall c | c in cache ::
                ReachesCycle(types, c) <==> exists d :: Circular(d) in errors && Reachable(types, c, d)
      ensures AllBuilt(types, cache) && AllTold(types, cache, errors)
      ensures !ReachesCycle(types, t) ==> t in cache && net == cache[t] && DenotedBy(types, t, net)
    {
      hide Denote, DenotedBy, Given, VisitsOk, SoundCache, BuiltIn, FaultIn, ReachesCycle;
      assert [] + [t] == [t];
      net := Elaborate(t, t, []);
      forall c | Reachable(types, t, c) ensures c in cache {
        var p :| Walk(types, p) && p[0] == t && p[|p| - 1] == c;
        CacheReaches(types, cache, errors, visits, p);
      }
      forall c | c in cache
        ensures ReachesCycle(types, c) <==> exists d :: Circular(d) in errors && Reachable(types, c, d)
      {
        CyclesReported(types, cache, errors, visits, c);
      }
      forall c | c in cache && !ReachesCycle(types, c) ensures BuiltIn(types, cache, c) {
        SoundBuilt(types, cache, errors, visits, c);
      }
      forall e: Error | !ReachesCycle(types, e.t) ensures e in errors <==> FaultIn(types, cache, e) {
        SoundTold(types, cache, errors, visits, e);
      }
      if !ReachesCycle(types, t) {
        GivenCached(types, cache, errors, visits, t, net);
        CacheDenoted(types, cache, t);
      }
    }

    method Elaborate(t: TypeId, ghost root: TypeId, ghost trail: seq<TypeId>) returns (net: NetType)
      requires OnTrail(root, trail, t) && Sound()
      modifies this
      decreases types.Keys - elaborating, 0
      ensures Progress(root, {}) && t in cache && Given(visits, |visits|, errors, t, net)
      ensures Answered(elaborating, old(cache), old(errors), old(visits), cache, errors, visits, t, net)
    {
      hide Walk, Closed, OnCycle, Reachable, VisitsOk, SoundCache, Given, Gives;
      CachedGiven(types, cache, errors, visits, elaborating, t);
      if t in cache {
        return cache[t];
      }
      TrailReaches(types, trail, t);
      ghost var parts := [];
      if t in elaborating {
        FoundCircular(types, cache, errors, visits, elaborating, t);
        Report(Circular(t));
        TurnedInteger(visits, |visits|, errors, t);
        net := INTEGER_TYPE;
      } else {
        MarkMore(types, cache, errors, visits, elaborating, t);
        elaborating := elaborating + {t};
        net, parts := ElaborateRaw(t, root, trail);
        elaborating := elaborating - {t};
        assert elaborating == old(elaborating) && elaborating + {t} == old(elaborating) + {t};
        VisitEnds(types, cache, errors, visits, elaborating, t, parts, net);
        visits := visits + [Visit(t, parts, net)];
      }
      if t !in cache {
        cache := cache[t := net];
      }
    }

    /** What `elaborate_type_raw` does, with `t` marked. */
    method ElaborateRaw(t: TypeId, ghost root: TypeId, ghost trail: seq<TypeId>)
      returns (net: NetType, ghost parts: seq<NetType>)
      requires Building(root, trail, t) && Sound()
      modifies this
      decreases types.Keys - elaborating, 2
      ensures Progress(root, {t}) && Gives(types, errors, visits, t, parts, net)
    {
      hide ErrorSet, ArrayErrors, ArrayType, Answered, Walk, Closed, Reachable, OnCycle, VisitsOk, SoundCache, Given,
        Gives, Wrapped, OneDim, NotPacked, Packed, SliceDims, Mixed, BadBound, FieldsBuilt, MemberFault, Declared;
      OnlyPart(types, t);
      parts := [];
      ghost var told := errors;
      match types[t] {
        case Simple(n) =>
          net := n;
        case StructDecl(_, _, _, members) =>
          net, parts := ElaborateStruct(t, root, trail);
          return;
        case PackedDecl(ranges, base) =>
          Extend(types, trail, t, base);
          var elem := Elaborate(base, root, trail + [t]);
          PackedIs(elem);
          parts, told := [elem], errors;
          if !Packed(elem) {
            Report(ElementNotPacked(t));
          }
          net := PackedArray(ranges, elem);
        case ArrayDecl(unpacked, base) =>
          Extend(types, trail, t, base);
          var elem := Elaborate(base, root, trail + [t]);
          parts, told := [elem], errors;
          net := ElaborateArray(t, elem, unpacked);
        case EnumDecl(base) =>
          Extend(types, trail, t, base);
          var vec := Elaborate(base, root, trail + [t]);
          DimsCounted(vec);
          parts, told := [vec], errors;
          if (!vec.Vector? && !vec.PackedArray?) || SliceDims(vec) > 1 {
            Report(EnumBase(t));
          }
          net := Enum(vec);
        case RefDecl(typedef) =>
          net, parts := ElaborateTypedef(t, root, trail);
          return;
      }
      RawDone(types, cache, visits, elaborating, root, t, old(errors), told, errors, parts, net);
    }

    /** A reference to a type definition, which may be missing or not found. */
    method ElaborateTypedef(t: TypeId, ghost root: TypeId, ghost trail: seq<TypeId>)
      returns (net: NetType, ghost parts: seq<NetType>)
      requires Building(root, trail, t) && types[t].RefDecl? && Sound()
      modifies this
      decreases types.Keys - elaborating, 1
      ensures Progress(root, {t}) && Gives(types, errors, visits, t, parts, net)
    {
      hide Answered, Walk, Closed, Reachable, OnCycle, VisitsOk, SoundCache, Given, Gives, Matches, Declared;
      parts := [];
      ghost var told := errors;
      var typedef := types[t].typedef;
      if typedef.Undefined? {
        Report(UndefinedType(t));
        net := INTEGER_TYPE;
      } else if typedef.Unplaced? {
        Report(NoTypeScope(t));
        net := INTEGER_TYPE;
      } else {
        OnlyPart(types, t);
        Extend(types, trail, t, typedef.target);
        net := Elaborate(typedef.target, root, trail + [t]);
        parts, told := [net], errors;
        MatchesDeclared(typedef.restriction, net);
        if !Matches(typedef.restriction, net) {
          Report(ForwardMismatch(t));
        }
      }
      RawDone(types, cache, visits, elaborating, root, t, old(errors), told, errors, parts, net);
    }

    method ElaborateStruct(t: TypeId, ghost root: TypeId, ghost trail: seq<TypeId>)
      returns (net: NetType, ghost parts: seq<NetType>)
      requires Building(root, trail, t) && types[t].StructDecl? && Sound()
      modifies this
      decreases types.Keys - elaborating, 1
      ensures Progress(root, {t}) && Gives(types, errors, visits, t, parts, net)
      ensures net.Struct? && net.isUnion == types[t].unionFlag
      ensures net.isPacked <==> types[t].packedFlag || (types[t].unionFlag && types[t].softFlag)
    {
      hide ErrorSet, NameErrors, Fields, Answered, Walk, Closed, Reachable, OnCycle, VisitsOk, SoundCache, Given,
        MemberFault, NameFault, FieldsBuilt, FieldIs;
      var decl := types[t];
      var members := decl.members;
      var isPacked := decl.packedFlag || (decl.unionFlag && decl.softFlag);
      var fields := [];
      parts := [];
      NoMembers(t, isPacked, members);
      for i := 0 to |members|
        invariant Progress(root, {t}) && |parts| == i
        invariant forall k | 0 <= k < i :: Given(visits, |visits|, errors, members[k].typ, parts[k])
        invariant FieldsBuilt(members[..i], fields, parts)
        invariant forall e: Error | e.t == t && !e.Circular? ::
                    e in errors <==> MemberFault(t, isPacked, members, parts, e)
      {
        ghost var errors1, visits1, parts1 := errors, visits, parts;
        MemberPart(types, t, i);
        Extend(types, trail, t, members[i].typ);
        var memVec := Elaborate(members[i].typ, root, trail + [t]);
        ghost var errors2 := errors;
        var named := ElaborateNames(t, memVec, members[i].names, isPacked);
        parts := parts + [memVec];
        NamesDone(types, cache, visits, elaborating, t, isPacked, memVec, members[i].names, errors2, errors);
        MembersNext(t, isPacked, members, i, parts1, memVec, fields, named, errors1, errors2, errors);
        GivenNext(members, i, visits1, errors1, visits, errors2, errors, parts1, memVec);
        fields := fields + named;
      }
      net := Struct(isPacked, decl.unionFlag, fields);
      assert members[..|members|] == members;
    }

    /** One member declaration may name several members of the same type. */
    method ElaborateNames(t: TypeId, memVec: NetType, names: seq<Declarator>, isPacked: bool)
      returns (fields: seq<Field>)
      modifies this`errors
      ensures fields == Fields(memVec, names)
      ensures |fields| == |names| && forall j | 0 <= j < |names| :: FieldIs(fields, j, memVec, names[j])
      ensures forall e ::
        e in errors <==> e in old(errors)
                         || exists j :: 0 <= j < |names| && NameFault(t, isPacked, memVec, names[j], e)
      ensures old(errors) <= errors
      ensures ErrorSet(errors) == ErrorSet(old(errors)) + NameErrors(t, isPacked, memVec, names)
    {
      hide ErrorSet, ArrayErrors, ArrayType, Packed, Fields, NameErrors, FieldIs, NameFault, Wrapped;
      fields := [];
      NoNames(t, isPacked, memVec, names[..0]);
      for j := 0 to |names|
        invariant fields == Fields(memVec, names[..j])
        invariant old(errors) <= errors
        invariant ErrorSet(errors) == ErrorSet(old(errors)) + NameErrors(t, isPacked, memVec, names[..j])
      {
        NamesNext(t, isPacked, memVec, names, j);
        if isPacked && names[j].hasDefault {
          Report(PackedDefault(t, names[j].name));
        }
        var n := ElaborateArray(t, memVec, names[j].dims);
        fields := fields + [Field(names[j].name, n)];
        if isPacked && !Packed(n) {
          Report(MemberNotPacked(t, names[j].name));
        }
      }
      assert names[..|names|] == names;
      FieldsOf(memVec, names);
      NamesFaulty(old(errors), errors, t, isPacked, memVec, names);
    }

    method ElaborateArray(t: TypeId, base: NetType, dims: seq<Dim>) returns (net: NetType)
      modifies this`errors
      ensures net == ArrayType(base, [], dims) == Wrapped(base, dims)
      ensures dims != [] && (forall k | 0 <= k < |dims| :: dims[k].Fixed?) ==>
        && net.UnpackedArray? && |net.ranges| == |dims|
        && (forall k | 0 <= k < |dims| :: net.ranges[k] == dims[k].range)
        && net.elem == if base.Queue? || base.DynamicArray? then LOGIC_TYPE else base
      ensures forall e ::
        e in errors <==> || e in old(errors)
                         || (e == Unsupported(t) && Mixed(base, dims))
                         || (e == QueueBound(t) && BadBound(dims))
      ensures old(errors) <= errors
      ensures ErrorSet(errors) == ErrorSet(old(errors)) + ArrayErrors(t, base, [], dims)
    {
      hide ErrorSet, Static, Supported, StaticErrors, ElementErrors, Wrapped, Mixed, BadBound;
      net := base;
      var dimensions: seq<Range> := [];
      for i := 0 to |dims|
        invariant ArrayType(net, dimensions, dims[i..]) == ArrayType(base, [], dims)
        invariant old(errors) <= errors
        invariant ErrorSet(errors) + ArrayErrors(t, net, dimensions, dims[i..]) ==
          ErrorSet(old(errors)) + ArrayErrors(t, base, [], dims)
      {
        assert dims[i..][0] == dims[i] && dims[i..][1..] == dims[i + 1..];
        match dims[i] {
          case Fixed(range) =>
            dimensions := dimensions + [range];
          case Open =>
            net := ElaborateStatic(t, net, dimensions);
            net := CheckSupported(t, net);
            net := DynamicArray(net);
            dimensions := [];
          case Dollar(bounded, bound) =>
            net := ElaborateStatic(t, net, dimensions);
            net := CheckSupported(t, net);
            if bounded && bound < 0 {
              Report(QueueBound(t));
            }
            net := Queue(net, if bounded && bound >= 0 then bound else -1);
            dimensions := [];
        }
      }
      net := ElaborateStatic(t, net, dimensions);
      DimsWrapped(base, dims);
      ArrayFaulty(old(errors), errors, t, base, dims);
    }

    method ElaborateStatic(t: TypeId, base: NetType, dimensions: seq<Range>) returns (net: NetType)
      modifies this`errors
      ensures net == Static(base, dimensions)
      ensures old(errors) <= errors
      ensures ErrorSet(errors) == ErrorSet(old(errors)) + StaticErrors(t, base, dimensions)
    {
      if dimensions == [] {
        return base;
      }
      var elem := base;
      if base.Queue? || base.DynamicArray? {
        Report(Unsupported(t));
        elem := LOGIC_TYPE;
      }
      net := UnpackedArray(dimensions, elem);
    }

    method CheckSupported(t: TypeId, base: NetType) returns (net: NetType)
      modifies this`errors
      ensures net == Supported(base)
      ensures old(errors) <= errors
      ensures ErrorSet(errors) == ErrorSet(old(errors)) + ElementErrors(t, base)
    {
      if base.Vector? || base.PackedArray? || base.Real? || base.Text? {
        return base;
      }
      Report(Unsupported(t));
      net := LOGIC_TYPE;
    }
  }

  lemma CachedGiven(types: Types, cache: Cache, errors: seq<Error>, visits: seq<Visit>, elaborating: set<TypeId>,
                    t: TypeId)
    requires SoundCache(types, cache, errors, visits, elaborating)
    ensures t in cache ==> Given(visits, |visits|, errors, t, cache[t])
  {
  }

  lemma GivenCached(types: Types, cache: Cache, errors: seq<Error>, visits: seq<Visit>, t: TypeId, net: NetType)
    requires VisitsOk(types, errors, visits) && SoundCache(types, cache, errors, visits, {})
    requires !ReachesCycle(types, t) && Given(visits, |visits|, errors, t, net)
    ensures t in types && t in cache && net == cache[t]
  {
    hide VisitsOk, OnCycle, ReachesCycle, FaultSeen;
    if Circular(t) in errors {
      CycleReaches(types, t);
    }
    var i :| 0 <= i < |visits| && visits[i].t == t && visits[i].net == net;
    NotCircular(types, cache, errors, visits, i, t, net);
  }

  lemma MarkMore(types: Types, cache: Cache, errors: seq<Error>, visits: seq<Visit>, elaborating: set<TypeId>,
                 t: TypeId)
    requires SoundCache(types, cache, errors, visits, elaborating) && t !in cache && t !in elaborating
    ensures SoundCache(types, cache, errors, visits, elaborating + {t})
    ensures forall e: Error | e.t == t :: e in errors ==> e.Circular?
  {
    hide OnCycle, Given, Fault;
  }

  /** A type other than a struct has been built from its one part, if it has one. */
  lemma RawDone(types: Types, cache: Cache, visits: seq<Visit>, elaborating: set<TypeId>, root: TypeId, t: TypeId,
                e0: seq<Error>, e1: seq<Error>, e2: seq<Error>, parts: seq<NetType>, net: NetType)
    requires t in types && t in elaborating && e1 <= e2
    requires VisitsOk(types, e1, visits) && SoundCache(types, cache, e1, visits, elaborating)
    requires |parts| == |Children(types[t])| <= 1 && Built(types[t], net, parts)
    requires parts != [] ==> Given(visits, |visits|, e1, Children(types[t])[0], parts[0])
    requires forall e: Error | e.t == t && !e.Circular? :: e in e1 ==> e in e0
    requires forall e: Error | e.t == t :: e in e0 ==> e.Circular?
    requires forall e :: e in e2 <==> e in e1 || Fault(t, types[t], parts, e)
    ensures VisitsOk(types, e2, visits) && SoundCache(types, cache, e2, visits, elaborating)
    ensures Gives(types, e2, visits, t, parts, net)
    ensures forall e | e in e2 && e !in e1 :: e.t == t && !e.Circular?
  {
    hide VisitsOk, SoundCache, Given, Built, Fault;
    forall e | e in e2 && e !in e1 ensures e.t == t && !e.Circular? {
      FaultOf(t, types[t], parts, e);
    }
    Complained(types, cache, e1, visits, elaborating, t, e2);
    if parts != [] {
      GivenOn(visits, |visits|, e1, visits, |visits|, e2, Children(types[t])[0], parts[0]);
    }
  }

  lemma NoMembers(t: TypeId, isPacked: bool, members: seq<Member>)
    ensures FieldsBuilt(members[..0], [], [])
    ensures forall e :: !MemberFault(t, isPacked, members, [], e)
  {
  }

  lemma NameFaultOf(t: TypeId, isPacked: bool, net: NetType, d: Declarator, e: Error)
    requires NameFault(t, isPacked, net, d, e)
    ensures e.t == t && !e.Circular?
  {
  }

  /** The names of a member have been elaborated. */
  lemma NamesDone(types: Types, cache: Cache, visits: seq<Visit>, elaborating: set<TypeId>, t: TypeId, isPacked: bool,
                  net: NetType, names: seq<Declarator>, e1: seq<Error>, e2: seq<Error>)
    requires t in elaborating && e1 <= e2
    requires VisitsOk(types, e1, visits) && SoundCache(types, cache, e1, visits, elaborating)
    requires forall e ::
      e in e2 <==> e in e1 || exists j :: 0 <= j < |names| && NameFault(t, isPacked, net, names[j], e)
    ensures VisitsOk(types, e2, visits) && SoundCache(types, cache, e2, visits, elaborating)
    ensures forall e | e in e2 && e !in e1 :: e.t == t && !e.Circular?
  {
    hide VisitsOk, SoundCache, NameFault;
    forall e | e in e2 && e !in e1 ensures e.t == t && !e.Circular? {
      var j :| 0 <= j < |names| && NameFault(t, isPacked, net, names[j], e);
      NameFaultOf(t, isPacked, net, names[j], e);
    }
    Complained(types, cache, e1, visits, elaborating, t, e2);
  }

  /** One more member of a struct. */
  lemma MembersNext(t: TypeId, isPacked: bool, members: seq<Member>, n: nat, parts: seq<NetType>, memVec: NetType,
                    fields: seq<Field>, named: seq<Field>, e1: seq<Error>, e2: seq<Error>, e3: seq<Error>)
    requires n < |members| && |parts| == n && |named| == |members[n].names|
    requires FieldsBuilt(members[..n], fields, parts)
    requires forall j | 0 <= j < |named| :: FieldIs(named, j, memVec, members[n].names[j])
    requires forall e: Error | e.t == t && !e.Circular? :: e in e1 <==> MemberFault(t, isPacked, members, parts, e)
    requires forall e: Error | e.t == t && !e.Circular? :: e in e2 <==> e in e1
    requires forall e ::
      e in e3 <==> e in e2 || exists j :: 0 <= j < |named| && NameFault(t, isPacked, memVec, members[n].names[j], e)
    ensures FieldsBuilt(members[..n + 1], fields + named, parts + [memVec])
    ensures forall e: Error | e.t == t && !e.Circular? ::
      e in e3 <==> MemberFault(t, isPacked, members, parts + [memVec], e)
  {
    hide FieldsBuilt, FieldIs, NameFault;
    var more := parts + [memVec];
    assert more[..n] == parts && more[..n + 1] == more;
    FieldsNext(members, n, fields, named, more);
    forall e: Error | e.t == t && !e.Circular? ensures e in e3 <==> MemberFault(t, isPacked, members, more, e) {
      assert MemberFault(t, isPacked, members, more, e) <==>
        || MemberFault(t, isPacked, members, parts, e)
        || exists j :: 0 <= j < |named| && NameFault(t, isPacked, memVec, members[n].names[j], e);
    }
  }

  lemma GivenNext(members: seq<Member>, n: nat, v1: seq<Visit>, e1: seq<Error>, v2: seq<Visit>, e2: seq<Error>,
                  e3: seq<Error>, parts: seq<NetType>, memVec: NetType)
    requires n < |members| && |parts| == n && v1 <= v2 && e1 <= e2 <= e3
    requires forall k | 0 <= k < n :: Given(v1, |v1|, e1, members[k].typ, parts[k])
    requires Given(v2, |v2|, e2, members[n].typ, memVec)
    ensures forall k | 0 <= k < n + 1 :: Given(v2, |v2|, e3, members[k].typ, (parts + [memVec])[k])
  {
    hide Given;
    forall k | 0 <= k < n + 1 ensures Given(v2, |v2|, e3, members[k].typ, (parts + [memVec])[k]) {
      if k < n {
        GivenOn(v1, |v1|, e1, v2, |v2|, e3, members[k].typ, parts[k]);
      } else {
        GivenOn(v2, |v2|, e2, v2, |v2|, e3, members[k].typ, memVec);
      }
    }
  }

  lemma OnlyPart(types: Types, t: TypeId)
    requires t in types
    ensures types[t].PackedDecl? || types[t].ArrayDecl? || types[t].EnumDecl? ==> Step(types, t, types[t].base)
    ensures types[t].RefDecl? && types[t].typedef.Defined? ==> Step(types, t, types[t].typedef.target)
  {
    if types[t].PackedDecl? || types[t].ArrayDecl? || types[t].EnumDecl? {
      assert types[t].base in Children(types[t]);
    }
  }

  lemma MemberPart(types: Types, t: TypeId, i: nat)
    requires t in types && types[t].StructDecl? && i < |types[t].members|
    ensures Step(types, t, types[t].members[i].typ)
  {
    assert Bases(types[t].members)[i] == types[t].members[i].typ;
  }

  lemma PackedIs(net: NetType)
    ensures Packed(net) <==> !NotPacked(net)
  {
  }
}
