/** Concatenations as l-values: the procedural form is a linked chain of assignments, least
    significant first; the net form is a tiling by part selects. Both give every operand the
    same bits. */
module LvalConcat {
  import opened FourState

  /** An l-value: a signal, an operand that fails to elaborate, a missing operand, or a
      concatenation, which may wrongly have a repeat count. */
  datatype Lval =
    | Signal(id: nat, width: nat, isPacked: bool)
    | Failing
    | Missing
    | Concat(repeated: bool, parms: seq<Lval>)

  datatype Target = Target(id: nat, width: nat)
  datatype Slice = Slice(id: nat, bits: Vec)

  predicate IsUnpacked(l: Lval) {
    l.Signal? && !l.isPacked
  }

  /** The operands that survive, most significant first. */
  function Flatten(l: Lval): seq<Target>
    decreases l, 0
  {
    match l
    case Signal(id, width, _) => [Target(id, width)]
    case Failing => []
    case Missing => []
    case Concat(repeated, parms) => if repeated then [] else FlattenAll(parms)
  }

  function FlattenAll(parms: seq<Lval>): seq<Target>
    decreases parms, |parms|
  {
    if parms == [] then []
    else (if IsUnpacked(parms[0]) then [] else Flatten(parms[0])) + FlattenAll(parms[1..])
  }

  /** Nothing in the l-value is in error. */
  predicate Clean(l: Lval)
    decreases l, 0
  {
    match l
    case Signal(_, _, _) => true
    case Failing => false
    case Missing => false
    case Concat(repeated, parms) => !repeated && CleanAll(parms)
  }

  predicate CleanAll(parms: seq<Lval>)
    decreases parms, |parms|
  {
    parms == [] || (Clean(parms[0]) && !IsUnpacked(parms[0]) && CleanAll(parms[1..]))
  }

  lemma {:induction false} OneMore(parms: seq<Lval>, k: nat)
    requires k < |parms|
    ensures FlattenAll(parms[..k + 1]) ==
      FlattenAll(parms[..k]) + if IsUnpacked(parms[k]) then [] else Flatten(parms[k])
    ensures CleanAll(parms[..k + 1]) <==> CleanAll(parms[..k]) && Clean(parms[k]) && !IsUnpacked(parms[k])
    decreases |parms|
  {
    var more := parms[..k + 1];
    if k == 0 {
      assert more[1..] == [] && parms[..0] == [];
    } else {
      TakeTail(parms, k);
      TakeTail(parms, k - 1);
      OneMore(parms[1..], k - 1);
    }
  }

  lemma TakeTail(parms: seq<Lval>, k: nat)
    requires k < |parms|
    ensures parms[..k + 1][1..] == parms[1..][..k] && parms[..k + 1][0] == parms[0]
  {
  }

  function Reverse(targets: seq<Target>): (r: seq<Target>)
    ensures |r| == |targets|
    ensures forall k | 0 <= k < |r| :: r[k] == targets[|r| - 1 - k]
  {
    if targets == [] then [] else Reverse(targets[1..]) + [targets[0]]
  }

  lemma {:induction false} ReverseConcat(a: seq<Target>, b: seq<Target>)
    ensures Reverse(a + b) == Reverse(b) + Reverse(a)
  {
  }

  // ----- a reference: positions in the tree

  /** The way from the root to a position, by operand numbers. */
  type Path = seq<nat>

  predicate At(l: Lval, p: Path)
    decreases p
  {
    p == [] || (l.Concat? && p[0] < |l.parms| && At(l.parms[p[0]], p[1..]))
  }

  function Node(l: Lval, p: Path): Lval
    requires At(l, p)
    decreases p
  {
    if p == [] then l else Node(l.parms[p[0]], p[1..])
  }

  /** No concatenation above the position is repeated. */
  predicate Reached(l: Lval, p: Path)
    requires At(l, p)
    decreases p
  {
    p == [] || (!l.repeated && Reached(l.parms[p[0]], p[1..]))
  }

  /** The position is a signal; as an operand it is packed. */
  predicate Assignable(l: Lval, p: Path) {
    At(l, p) && Reached(l, p) && Node(l, p).Signal? && (p == [] || Node(l, p).isPacked)
  }

  /** The position fails or is missing, is a repeated concatenation, or is an operand that is not
      packed. */
  predicate Wrong(l: Lval, p: Path) {
    At(l, p) && Reached(l, p) &&
    match Node(l, p)
    case Signal(_, _, isPacked) => p != [] && !isPacked
    case Concat(repeated, _) => repeated
    case _ => true
  }

  /** `p` is to the left of `q`. */
  ghost predicate LeftOf(p: Path, q: Path) {
    exists k :: 0 <= k < |p| && k < |q| && p[..k] == q[..k] && p[k] < q[k]
  }

  ghost predicate InOrder(paths: seq<Path>) {
    forall i, j | 0 <= i < j < |paths| :: LeftOf(paths[i], paths[j])
  }

  /** `paths` are the assignable positions from left to right. */
  ghost predicate Assigned(l: Lval, paths: seq<Path>) {
    InOrder(paths) && forall p :: p in paths <==> Assignable(l, p)
  }

  /** `paths` are the wrong positions from left to right. */
  ghost predicate Faults(l: Lval, paths: seq<Path>) {
    InOrder(paths) && forall p :: p in paths <==> Wrong(l, p)
  }

  function TargetAt(l: Lval, p: Path): Target
    requires At(l, p) && Node(l, p).Signal?
  {
    Target(Node(l, p).id, Node(l, p).width)
  }

  ghost predicate TargetsOf(l: Lval, paths: seq<Path>, targets: seq<Target>) {
    && |targets| == |paths|
    && forall i | 0 <= i < |paths| :: Assignable(l, paths[i]) && targets[i] == TargetAt(l, paths[i])
  }

  // ----- listing the positions

  function Under(k: nat, paths: seq<Path>): (r: seq<Path>)
    ensures |r| == |paths| && forall i | 0 <= i < |r| :: r[i] == [k] + paths[i]
  {
    seq(|paths|, i requires 0 <= i < |paths| => [k] + paths[i])
  }

  /** Positions below operand `k`, and below the later ones. */
  ghost predicate From(k: nat, paths: seq<Path>) {
    forall p | p in paths :: p != [] && p[0] >= k
  }

  lemma Lined(k: nat, first: seq<Path>, rest: seq<Path>)
    requires InOrder(first) && InOrder(rest) && From(k + 1, rest)
    ensures InOrder(Under(k, first) + rest) && From(k, Under(k, first) + rest)
  {
    var a := Under(k, first);
    var all := a + rest;
    forall i, j | 0 <= i < j < |all| ensures LeftOf(all[i], all[j]) {
      if j < |a| {
        var m :| 0 <= m < |first[i]| && m < |first[j]| && first[i][..m] == first[j][..m] && first[i][m] < first[j][m];
        assert a[i][..m + 1] == [k] + first[i][..m] && a[j][..m + 1] == [k] + first[j][..m];
        assert a[i][m + 1] == first[i][m] && a[j][m + 1] == first[j][m];
      } else if i < |a| {
        assert all[j] in rest && all[i][0] == k < all[j][0];
        assert all[i][..0] == all[j][..0];
      } else {
        assert all[i] == rest[i - |a|] && all[j] == rest[j - |a|];
      }
    }
  }

  function Leaves(l: Lval): seq<Path>
    decreases l, 0
  {
    match l
    case Signal(_, _, _) => [[]]
    case Concat(repeated, parms) => if repeated then [] else LeavesFrom(parms, 0)
    case _ => []
  }

  function LeavesFrom(parms: seq<Lval>, k: nat): seq<Path>
    requires k <= |parms|
    decreases parms, |parms| - k
  {
    if k == |parms| then []
    else Under(k, if IsUnpacked(parms[k]) then [] else Leaves(parms[k])) + LeavesFrom(parms, k + 1)
  }

  function Errors(l: Lval): seq<Path>
    decreases l, 0
  {
    match l
    case Signal(_, _, _) => []
    case Concat(repeated, parms) => if repeated then [[]] else ErrorsFrom(parms, 0)
    case _ => [[]]
  }

  function ErrorsFrom(parms: seq<Lval>, k: nat): seq<Path>
    requires k <= |parms|
    decreases parms, |parms| - k
  {
    if k == |parms| then []
    else Under(k, if IsUnpacked(parms[k]) then [[]] else Errors(parms[k])) + ErrorsFrom(parms, k + 1)
  }

  lemma InUnder(k: nat, paths: seq<Path>, p: Path)
    ensures p in Under(k, paths) <==> p != [] && p[0] == k && p[1..] in paths
  {
    if p in Under(k, paths) {
      var i :| 0 <= i < |paths| && Under(k, paths)[i] == p;
      assert p == [k] + paths[i] && p[1..] == paths[i];
    }
    if p != [] && p[0] == k && p[1..] in paths {
      var i :| 0 <= i < |paths| && paths[i] == p[1..];
      assert Under(k, paths)[i] == p;
    }
  }

  lemma OperandAt(parms: seq<Lval>, p: Path)
    ensures p == [] ==> !Assignable(Concat(false, parms), p) && !Wrong(Concat(false, parms), p)
    ensures p != [] && p[0] < |parms| ==>
      && (Assignable(Concat(false, parms), p) <==>
            Assignable(parms[p[0]], p[1..]) && (p[1..] == [] ==> !IsUnpacked(parms[p[0]])))
      && (Wrong(Concat(false, parms), p) <==>
            Wrong(parms[p[0]], p[1..]) || (p[1..] == [] && IsUnpacked(parms[p[0]])))
    ensures p != [] && p[0] >= |parms| ==> !Assignable(Concat(false, parms), p) && !Wrong(Concat(false, parms), p)
  {
    if p != [] && p[0] < |parms| {
      var l := Concat(false, parms);
      assert At(l, p) <==> At(parms[p[0]], p[1..]);
      if At(l, p) {
        assert Node(l, p) == Node(parms[p[0]], p[1..]);
        assert Reached(l, p) <==> Reached(parms[p[0]], p[1..]);
      }
    }
  }

  lemma TargetsJoin(l: Lval, a: seq<Path>, x: seq<Target>, b: seq<Path>, y: seq<Target>)
    requires TargetsOf(l, a, x) && TargetsOf(l, b, y)
    ensures TargetsOf(l, a + b, x + y)
  {
    hide Assignable, TargetAt;
  }

  lemma TargetsUnder(parms: seq<Lval>, k: nat, paths: seq<Path>, targets: seq<Target>)
    requires k < |parms| && !IsUnpacked(parms[k]) && TargetsOf(parms[k], paths, targets)
    ensures TargetsOf(Concat(false, parms), Under(k, paths), targets)
  {
    var under := Under(k, paths);
    forall i | 0 <= i < |under|
      ensures Assignable(Concat(false, parms), under[i]) && targets[i] == TargetAt(Concat(false, parms), under[i])
    {
      OperandAt(parms, under[i]);
      assert under[i][1..] == paths[i];
    }
  }

  lemma {:induction false} LeavesAre(l: Lval)
    ensures Assigned(l, Leaves(l)) && TargetsOf(l, Leaves(l), Flatten(l))
    decreases l, 0
  {
    match l
    case Concat(repeated, parms) =>
      if !repeated {
        LeavesFromAre(parms, 0);
        assert parms[0..] == parms;
        OperandAt(parms, []);
      }
    case _ =>
  }

  lemma {:induction false} LeavesFromAre(parms: seq<Lval>, k: nat)
    requires k <= |parms|
    ensures InOrder(LeavesFrom(parms, k)) && From(k, LeavesFrom(parms, k))
    ensures forall p :: p in LeavesFrom(parms, k) <==> p != [] && p[0] >= k && Assignable(Concat(false, parms), p)
    ensures TargetsOf(Concat(false, parms), LeavesFrom(parms, k), FlattenAll(parms[k..]))
    decreases parms, |parms| - k
  {
    hide Assignable, InOrder, From, TargetsOf, Flatten;
    if k == |parms| {
      NoPaths(parms);
      forall p | p != [] && p[0] >= k ensures !Assignable(Concat(false, parms), p) {
        OperandAt(parms, p);
      }
    } else {
      LeavesAre(parms[k]);
      LeavesFromAre(parms, k + 1);
      var unpacked, rest := IsUnpacked(parms[k]), LeavesFrom(parms, k + 1);
      var first := if unpacked then [] else Leaves(parms[k]);
      NoPaths(parms);
      Lined(k, first, rest);
      forall p ensures p in LeavesFrom(parms, k) <==> p != [] && p[0] >= k && Assignable(Concat(false, parms), p) {
        InUnder(k, first, p);
        OperandAt(parms, p);
        if unpacked && p != [] && p[0] == k {
          UnpackedAt(parms[k], p[1..]);
        }
      }
      assert parms[k..][0] == parms[k] && parms[k..][1..] == parms[k + 1..];
      var targets := if unpacked then [] else Flatten(parms[k]);
      if unpacked {
        assert Under(k, first) == [];
      } else {
        TargetsUnder(parms, k, first, targets);
      }
      TargetsJoin(Concat(false, parms), Under(k, first), targets, rest, FlattenAll(parms[k + 1..]));
    }
  }

  lemma NoPaths(parms: seq<Lval>)
    ensures InOrder([]) && From(|parms|, []) && TargetsOf(Concat(false, parms), [], [])
    ensures FlattenAll(parms[|parms|..]) == []
  {
  }

  lemma UnpackedAt(l: Lval, p: Path)
    requires IsUnpacked(l)
    ensures Assignable(l, p) <==> p == []
    ensures !Wrong(l, p)
  {
  }

  lemma {:induction false} ErrorsAre(l: Lval)
    ensures Faults(l, Errors(l)) && (Errors(l) == [] <==> Clean(l))
    decreases l, 0
  {
    match l
    case Concat(repeated, parms) =>
      if !repeated {
        ErrorsFromAre(parms, 0);
        assert parms[0..] == parms;
        OperandAt(parms, []);
      }
    case _ =>
  }

  lemma {:induction false} ErrorsFromAre(parms: seq<Lval>, k: nat)
    requires k <= |parms|
    ensures InOrder(ErrorsFrom(parms, k)) && From(k, ErrorsFrom(parms, k))
    ensures forall p :: p in ErrorsFrom(parms, k) <==> p != [] && p[0] >= k && Wrong(Concat(false, parms), p)
    ensures ErrorsFrom(parms, k) == [] <==> CleanAll(parms[k..])
    decreases parms, |parms| - k
  {
    hide Wrong, InOrder, From, Clean;
    NoPaths(parms);
    if k == |parms| {
      forall p | p != [] && p[0] >= k ensures !Wrong(Concat(false, parms), p) {
        OperandAt(parms, p);
      }
    } else {
      ErrorsAre(parms[k]);
      ErrorsFromAre(parms, k + 1);
      var unpacked, rest := IsUnpacked(parms[k]), ErrorsFrom(parms, k + 1);
      var first: seq<Path> := if unpacked then [[]] else Errors(parms[k]);
      OnePath();
      Lined(k, first, rest);
      forall p ensures p in ErrorsFrom(parms, k) <==> p != [] && p[0] >= k && Wrong(Concat(false, parms), p) {
        InUnder(k, first, p);
        OperandAt(parms, p);
        if unpacked && p != [] && p[0] == k {
          UnpackedAt(parms[k], p[1..]);
        }
      }
      assert parms[k..][0] == parms[k] && parms[k..][1..] == parms[k + 1..];
      assert |ErrorsFrom(parms, k)| == |first| + |rest|;
    }
  }

  lemma OnePath()
    ensures InOrder([[]])
  {
  }

  // ----- the procedural chain

  class NetAssign {
    const target: Target
    var more: NetAssign?
    var signed: bool

    constructor (target: Target)
      ensures this.target == target && more == null && signed
    {
      this.target := target;
      more, signed := null, true;
    }
  }

  /** `nodes` are the different nodes that the `more` links lead through from `head` to the end. */
  ghost predicate Chain(head: NetAssign?, nodes: seq<NetAssign>)
    reads nodes
  {
    && (head == if nodes == [] then null else nodes[0])
    && (forall i {:trigger nodes[i].more} | 0 <= i < |nodes| ::
          nodes[i].more == if i + 1 < |nodes| then nodes[i + 1] else null)
    && (forall i, j | 0 <= i < j < |nodes| :: nodes[i] != nodes[j])
  }

  ghost function Targets(nodes: seq<NetAssign>): seq<Target> {
    seq(|nodes|, i requires 0 <= i < |nodes| => nodes[i].target)
  }

  /** The chain holds the targets at these positions, the last one first. */
  ghost predicate ChainOf(l: Lval, paths: seq<Path>, nodes: seq<NetAssign>) {
    && |nodes| == |paths|
    && forall i | 0 <= i < |paths| ::
         Assignable(l, paths[i]) && nodes[|nodes| - 1 - i].target == TargetAt(l, paths[i])
  }

  /** Elaborate an l-value. The chain holds the surviving operands once each and last one
      first, and the operands of a concatenation are unsigned. */
  method ElaborateLval(l: Lval) returns (res: NetAssign?, errors: nat, ghost nodes: seq<NetAssign>)
    decreases l, 1
    ensures Chain(res, nodes) && fresh(nodes)
    ensures Targets(nodes) == Reverse(Flatten(l))
    ensures Assigned(l, Leaves(l)) && ChainOf(l, Leaves(l), nodes)
    ensures forall n | n in nodes && (l.Concat? || n != res) :: !n.signed
    ensures errors == 0 <==> Clean(l)
    ensures Faults(l, Errors(l)) && errors == |Errors(l)|
  {
    hide FlattenAll, CleanAll, Reverse, Assigned, Faults, LeavesFrom, ErrorsFrom, ChainOf, TargetsOf;
    LeavesAre(l);
    ErrorsAre(l);
    match l {
      case Signal(id, width, _) =>
        res := new NetAssign(Target(id, width));
        errors, nodes := 0, [res];
      case Failing =>
        res, errors, nodes := null, 1, [];
      case Missing =>
        res, errors, nodes := null, 1, [];
      case Concat(repeated, parms) =>
        if repeated {
          res, errors, nodes := null, 1, [];
        } else {
          res, errors, nodes := ElaborateConcat(parms);
        }
    }
    ChainLists(l, nodes);
  }

  lemma ChainLists(l: Lval, nodes: seq<NetAssign>)
    requires Targets(nodes) == Reverse(Flatten(l)) && TargetsOf(l, Leaves(l), Flatten(l))
    ensures ChainOf(l, Leaves(l), nodes)
  {
    hide Leaves, Flatten;
    var paths := Leaves(l);
    assert |Targets(nodes)| == |nodes| == |paths|;
    forall i | 0 <= i < |paths|
      ensures Assignable(l, paths[i]) && nodes[|nodes| - 1 - i].target == TargetAt(l, paths[i])
    {
      assert Targets(nodes)[|nodes| - 1 - i] == Flatten(l)[i];
    }
  }

  lemma NoErrorsLeft(parms: seq<Lval>)
    ensures ErrorsFrom(parms, |parms|) == []
  {
  }

  lemma NextErrors(parms: seq<Lval>, k: nat)
    requires k < |parms|
    ensures |ErrorsFrom(parms, k)|
         == (if IsUnpacked(parms[k]) then 1 else |Errors(parms[k])|) + |ErrorsFrom(parms, k + 1)|
    ensures parms[k].Missing? ==> |Errors(parms[k])| == 1
    ensures parms[k].Signal? ==> Errors(parms[k]) == []
  {
  }

  method ElaborateConcat(parms: seq<Lval>) returns (res: NetAssign?, errors: nat, ghost nodes: seq<NetAssign>)
    decreases parms, 0
    ensures Chain(res, nodes) && fresh(nodes)
    ensures Targets(nodes) == Reverse(FlattenAll(parms))
    ensures forall n | n in nodes :: !n.signed
    ensures errors == |ErrorsFrom(parms, 0)| && (errors == 0 <==> CleanAll(parms))
  {
    hide Flatten, FlattenAll, Reverse, Chain, Targets, Clean, CleanAll, Errors, ErrorsFrom;
    MissingIsNothing();
    StartConcat(parms);
    NoErrorsLeft(parms);
    res, errors, nodes := null, 0, [];
    for idx := 0 to |parms|
      invariant Chain(res, nodes) && fresh(nodes)
      invariant Targets(nodes) == Reverse(FlattenAll(parms[..idx]))
      invariant forall n | n in nodes :: !n.signed
      invariant errors == 0 <==> CleanAll(parms[..idx])
      invariant errors + |ErrorsFrom(parms, idx)| == |ErrorsFrom(parms, 0)|
    {
      OneMore(parms, idx);
      NextErrors(parms, idx);
      if parms[idx].Missing? {
        errors := errors + 1;
        continue;
      }
      var tmp, tmpErrors, tmpNodes := ElaborateLval(parms[idx]);
      errors := errors + tmpErrors;
      if tmp == null {
        FlattenedEmpty(parms[idx], tmpNodes);
        continue;
      }
      if IsUnpacked(parms[idx]) {
        errors := errors + 1;
        continue;
      }
      res := LinkBefore(tmp, tmpNodes, res, nodes);
      ReverseConcat(FlattenAll(parms[..idx]), Flatten(parms[idx]));
      TargetsConcat(tmpNodes, nodes);
      nodes := tmpNodes + nodes;
    }
    assert parms[..|parms|] == parms;
  }

  lemma MissingIsNothing()
    ensures Flatten(Missing) == [] && !Clean(Missing)
  {
  }

  lemma StartConcat(parms: seq<Lval>)
    ensures Chain(null, []) && Targets([]) == Reverse(FlattenAll(parms[..0])) && CleanAll(parms[..0])
  {
  }

  lemma FlattenedEmpty(l: Lval, nodes: seq<NetAssign>)
    requires Chain(null, nodes) && Targets(nodes) == Reverse(Flatten(l))
    ensures nodes == [] && Flatten(l) == [] && !IsUnpacked(l)
  {
    assert |Targets(nodes)| == |nodes|;
  }

  lemma TargetsConcat(a: seq<NetAssign>, b: seq<NetAssign>)
    ensures Targets(a + b) == Targets(a) + Targets(b)
  {
  }

  /** Make the new l-value unsigned and link it to the previous one: walk to its end and hang
      the old chain there. */
  method LinkBefore(tmp: NetAssign, ghost tmpNodes: seq<NetAssign>, res: NetAssign?, ghost nodes: seq<NetAssign>)
    returns (head: NetAssign)
    requires Chain(tmp, tmpNodes) && Chain(res, nodes)
    requires forall n | n in tmpNodes :: n !in nodes
    modifies tmpNodes
    ensures head == tmp && Chain(head, tmpNodes + nodes)
    ensures !tmp.signed && forall n | n in tmpNodes && n != tmp :: n.signed == old(n.signed)
  {
    tmp.signed := false;
    var last := tmp;
    ghost var k := 0;
    while last.more != null
      invariant 0 <= k < |tmpNodes| && last == tmpNodes[k]
      invariant Chain(tmp, tmpNodes) && Chain(res, nodes)
      decreases |tmpNodes| - k
    {
      last := last.more;
      k := k + 1;
    }
    assert k == |tmpNodes| - 1;
    last.more := res;
    head := tmp;
    ghost var all, m := tmpNodes + nodes, |tmpNodes|;
    forall i | 0 <= i < |all| ensures all[i].more == if i + 1 < |all| then all[i + 1] else null {
      if i < m {
        assert all[i] == tmpNodes[i] && (i + 1 < m ==> tmpNodes[i].more == tmpNodes[i + 1]);
      } else {
        assert all[i] == nodes[i - m] && nodes[i - m] in nodes && last in tmpNodes;
      }
    }
    forall i, j | 0 <= i < j < |all| ensures all[i] != all[j] {
      if i < m <= j {
        assert tmpNodes[i] in tmpNodes && nodes[j - m] in nodes;
      }
    }
    assert Chain(head, all);
  }

  // ----- the bits along a chain

  function Sum(targets: seq<Target>): nat {
    if targets == [] then 0 else targets[0].width + Sum(targets[1..])
  }

  /** Cut a value into slices from the least significant bit up. */
  function Slices(targets: seq<Target>, value: Vec): seq<Slice>
    requires Sum(targets) == |value|
  {
    if targets == [] then []
    else
      var w := targets[0].width;
      [Slice(targets[0].id, value[..w])] + Slices(targets[1..], value[w..])
  }

  function Joined(slices: seq<Slice>): Vec {
    if slices == [] then [] else slices[0].bits + Joined(slices[1..])
  }

  /** Putting the slices together again restores the value. */
  lemma {:induction false} SlicesRestore(targets: seq<Target>, value: Vec)
    requires Sum(targets) == |value|
    ensures Joined(Slices(targets, value)) == value
  {
    if targets != [] {
      hide Slices, Sum;
      var w := targets[0].width;
      WidthFirst(targets, value);
      NextSlice(targets, value);
      SlicesRestore(targets[1..], value[w..]);
      JoinedNext(Slice(targets[0].id, value[..w]), Slices(targets[1..], value[w..]));
      assert value[..w] + value[w..] == value;
    }
  }

  lemma JoinedNext(first: Slice, rest: seq<Slice>)
    ensures Joined([first] + rest) == first.bits + Joined(rest)
  {
    assert ([first] + rest)[1..] == rest;
  }

  predicate Shaped(targets: seq<Target>, slices: seq<Slice>) {
    && |slices| == |targets|
    && forall k | 0 <= k < |targets| :: slices[k].id == targets[k].id && |slices[k].bits| == targets[k].width
  }

  /** Every target gets as many bits as it is wide. */
  lemma {:induction false} SlicesShaped(targets: seq<Target>, value: Vec)
    requires Sum(targets) == |value|
    ensures Shaped(targets, Slices(targets, value))
  {
    if targets != [] {
      hide Slices, Sum;
      var w := targets[0].width;
      WidthFirst(targets, value);
      NextSlice(targets, value);
      SlicesShaped(targets[1..], value[w..]);
      ShapedNext(targets, Slice(targets[0].id, value[..w]), Slices(targets[1..], value[w..]));
    }
  }

  lemma ShapedNext(targets: seq<Target>, first: Slice, rest: seq<Slice>)
    requires targets != [] && Shaped(targets[1..], rest)
    requires first.id == targets[0].id && |first.bits| == targets[0].width
    ensures Shaped(targets, [first] + rest)
  {
    assert forall k | 1 <= k < |targets| :: targets[k] == targets[1..][k - 1];
  }

  lemma {:induction false} SumConcat(a: seq<Target>, b: seq<Target>)
    ensures Sum(a + b) == Sum(a) + Sum(b)
  {
    if a == [] {
      assert a + b == b;
    } else {
      assert (a + b)[1..] == a[1..] + b;
      SumConcat(a[1..], b);
    }
  }

  lemma {:induction false} SlicesConcat(a: seq<Target>, b: seq<Target>, value: Vec)
    requires Sum(a) + Sum(b) == |value|
    ensures Sum(a + b) == |value|
    ensures Slices(a + b, value) == Slices(a, value[..Sum(a)]) + Slices(b, value[Sum(a)..])
  {
    hide Slices, Sum;
    SumConcat(a, b);
    if a == [] {
      NoSlices();
      assert a + b == b && value[0..] == value && value[..0] == [];
    } else {
      var w, low, high := a[0].width, value[..Sum(a)], value[Sum(a)..];
      WidthFirst(a, low);
      CutTwice(value, w, Sum(a[1..]));
      SlicesConcat(a[1..], b, value[w..]);
      var first := Slice(a[0].id, low[..w]);
      assert Slices(a + b, value) == [first] + Slices(a[1..] + b, value[w..]) by {
        assert (a + b)[0] == a[0] && (a + b)[1..] == a[1..] + b;
        NextSlice(a + b, value);
      }
      NextSlice(a, low);
      Associates(first, Slices(a[1..], low[w..]), Slices(b, high));
    }
  }

  lemma NoSlices()
    ensures Sum([]) == 0 && Slices([], []) == []
  {
  }

  lemma Associates(first: Slice, x: seq<Slice>, y: seq<Slice>)
    ensures [first] + (x + y) == ([first] + x) + y
  {
  }

  lemma WidthFirst(targets: seq<Target>, value: Vec)
    requires targets != [] && Sum(targets) == |value|
    ensures targets[0].width <= |value| && Sum(targets[1..]) == |value[targets[0].width..]|
  {
  }

  lemma NextSlice(targets: seq<Target>, value: Vec)
    requires targets != [] && Sum(targets) == |value|
    ensures var w := targets[0].width;
      Slices(targets, value) == [Slice(targets[0].id, value[..w])] + Slices(targets[1..], value[w..])
  {
  }

  lemma CutTwice(value: Vec, m: nat, n: nat)
    requires m + n <= |value|
    ensures value[m..][..n] == value[..m + n][m..]
    ensures value[m..][n..] == value[m + n..]
    ensures value[..m + n][..m] == value[..m]
  {
  }

  // ----- the net side

  /** The input net of a structural l-value: the signal itself, or a net that feeds the operands
      through part selects. */
  datatype Lnet = NoNet | Leaf(id: nat, width: nat) | Tiled(width: nat, selects: seq<PartSelect>)
  datatype PartSelect = PartSelect(off: nat, wid: nat, to: Lnet)

  function NetWidth(net: Lnet): nat {
    match net
    case NoNet => 0
    case Leaf(_, width) => width
    case Tiled(width, _) => width
  }

  /** What arrives at the signals when the net carries `value`, the last operand first. */
  function Arrivals(net: Lnet, value: Vec): seq<Slice>
    decreases net, 0
  {
    match net
    case NoNet => []
    case Leaf(id, _) => [Slice(id, value)]
    case Tiled(_, selects) => ArrivalsOf(selects, value)
  }

  function ArrivalsOf(selects: seq<PartSelect>, value: Vec): seq<Slice>
    decreases selects, |selects|
  {
    if selects == [] then []
    else
      ArrivalsOf(selects[1..], value) + ArrivalsAt(selects[0], value)
  }

  function ArrivalsAt(s: PartSelect, value: Vec): seq<Slice>
    decreases s, 1
  {
    if s.off + s.wid <= |value| then Arrivals(s.to, value[s.off..s.off + s.wid]) else []
  }

  /** The net that an l-value without errors gets: every operand lies just above all the later
      ones. */
  function LnetOf(l: Lval): Lnet
    requires Clean(l)
    decreases l, 0
  {
    match l
    case Signal(id, width, _) => Leaf(id, width)
    case Concat(_, parms) => Tiled(Sum(Flatten(l)), SelectsOf(parms))
  }

  function SelectsOf(parms: seq<Lval>): seq<PartSelect>
    requires CleanAll(parms)
    decreases parms, |parms|
  {
    if parms == [] then []
    else
      [PartSelect(Sum(FlattenAll(parms[1..])), Sum(Flatten(parms[0])), LnetOf(parms[0]))] + SelectsOf(parms[1..])
  }

  /** The net form gives each signal the bits that the procedural form gives it. */
  lemma {:induction false} TilingIsSlicing(l: Lval, value: Vec)
    requires Clean(l) && |value| == Sum(Flatten(l))
    ensures Sum(Reverse(Flatten(l))) == |value|
    ensures Arrivals(LnetOf(l), value) == Slices(Reverse(Flatten(l)), value)
    decreases l, 0
  {
    SumReverse(Flatten(l));
    match l
    case Signal(id, width, _) =>
      assert Reverse(Flatten(l)) == Flatten(l);
      assert value[..width] == value;
    case Concat(_, parms) =>
      SelectsAreSlices(parms, value);
      assert value[..|value|] == value;
  }

  lemma {:induction false} SelectsAreSlices(parms: seq<Lval>, value: Vec)
    requires CleanAll(parms) && |value| >= Sum(FlattenAll(parms))
    ensures Sum(Reverse(FlattenAll(parms))) == Sum(FlattenAll(parms))
    ensures ArrivalsOf(SelectsOf(parms), value) == Slices(Reverse(FlattenAll(parms)), value[..Sum(FlattenAll(parms))])
    decreases parms, |parms|
  {
    hide Slices, Reverse, Sum, Arrivals, ArrivalsOf, SelectsOf, FlattenAll, Flatten;
    SumReverse(FlattenAll(parms));
    if parms == [] {
      NothingArrives(parms, value);
    } else {
      var head, rest := Flatten(parms[0]), FlattenAll(parms[1..]);
      FirstArrives(parms, value);
      SumConcat(head, rest);
      var low, total := Sum(rest), Sum(head) + Sum(rest);
      SelectsAreSlices(parms[1..], value);
      TilingIsSlicing(parms[0], value[low..total]);
      ReverseConcat(head, rest);
      SumReverse(head);
      SumReverse(rest);
      SlicesConcat(Reverse(rest), Reverse(head), value[..total]);
      assert value[..total][..low] == value[..low];
      assert value[..total][low..] == value[low..total];
    }
  }

  lemma NothingArrives(parms: seq<Lval>, value: Vec)
    requires parms == []
    ensures FlattenAll(parms) == [] && Reverse([]) == [] && Sum([]) == 0
    ensures ArrivalsOf(SelectsOf(parms), value) == Slices([], value[..0]) == []
  {
  }

  /** The first operand takes its bits just above those of all the later ones. */
  lemma FirstArrives(parms: seq<Lval>, value: Vec)
    requires parms != [] && CleanAll(parms) && |value| >= Sum(FlattenAll(parms))
    ensures var head, rest := Flatten(parms[0]), FlattenAll(parms[1..]);
      && FlattenAll(parms) == head + rest
      && Sum(rest) + Sum(head) == Sum(head + rest)
      && ArrivalsOf(SelectsOf(parms), value)
        == ArrivalsOf(SelectsOf(parms[1..]), value)
         + Arrivals(LnetOf(parms[0]), value[Sum(rest)..Sum(rest) + Sum(head)])
  {
    hide Sum, Arrivals, ArrivalsOf, SelectsOf, LnetOf, Flatten;
    var head, rest := Flatten(parms[0]), FlattenAll(parms[1..]);
    assert FlattenAll(parms) == head + rest;
    SumConcat(head, rest);
    SelectsFirst(parms);
    var selects := SelectsOf(parms);
    assert selects[0] == PartSelect(Sum(rest), Sum(head), LnetOf(parms[0])) && selects[1..] == SelectsOf(parms[1..]);
    ArrivesAt(selects, value);
  }

  lemma SelectsFirst(parms: seq<Lval>)
    requires parms != [] && CleanAll(parms)
    ensures SelectsOf(parms)
      == [PartSelect(Sum(FlattenAll(parms[1..])), Sum(Flatten(parms[0])), LnetOf(parms[0]))] + SelectsOf(parms[1..])
  {
    hide Sum, FlattenAll, Flatten, LnetOf;
  }

  lemma ArrivesAt(selects: seq<PartSelect>, value: Vec)
    requires selects != []
    ensures ArrivalsOf(selects, value) == ArrivalsOf(selects[1..], value) + ArrivalsAt(selects[0], value)
  {
    hide Arrivals, ArrivalsAt;
  }

  lemma {:induction false} SumReverse(targets: seq<Target>)
    ensures Sum(Reverse(targets)) == Sum(targets)
  {
    if targets != [] {
      SumReverse(targets[1..]);
      SumConcat(Reverse(targets[1..]), [targets[0]]);
      assert [targets[0]][1..] == [];
    }
  }

  /** Elaborate an l-value as a net: there is one exactly if nothing is in error, and it tiles
      its operands. */
  method ElaborateLnet(l: Lval) returns (net: Lnet)
    decreases l, 1
    ensures net == NoNet <==> !Clean(l)
    ensures Faults(l, Errors(l)) && (net == NoNet <==> Errors(l) != [])
    ensures net != NoNet ==> TargetsOf(l, Leaves(l), Flatten(l))
    ensures Clean(l) ==> net == LnetOf(l) && NetWidth(net) == Sum(Flatten(l))
  {
    hide Faults, TargetsOf, Leaves, Errors;
    LeavesAre(l);
    ErrorsAre(l);
    match l {
      case Signal(id, width, _) =>
        net := Leaf(id, width);
        assert Flatten(l)[1..] == [];
      case Failing =>
        net := NoNet;
      case Missing =>
        net := NoNet;
      case Concat(repeated, parms) =>
        if repeated {
          net := NoNet;
        } else {
          net := ElaborateLnetCommon(l);
        }
    }
  }

  method ElaborateLnetCommon(l: Lval) returns (net: Lnet)
    requires l.Concat? && !l.repeated
    decreases l, 0
    ensures net == NoNet <==> !Clean(l)
    ensures Clean(l) ==> net == LnetOf(l)
  {
    hide Flatten, FlattenAll, Clean, CleanAll, LnetOf, SelectsOf, Sum, Reverse, NetWidth;
    var parms := l.parms;
    MissingIsNothing();
    OperandsOf(l);
    NoOperand(parms[..0]);
    var nets: seq<Lnet> := [];
    var width, errors := 0, 0;
    for idx := 0 to |parms|
      invariant |nets| == idx
      invariant errors == 0 <==> CleanAll(parms[..idx])
      invariant errors == 0 ==> width == Sum(FlattenAll(parms[..idx]))
      invariant errors == 0 ==> forall k | 0 <= k < idx ::
        Clean(parms[k]) && nets[k] == LnetOf(parms[k]) && NetWidth(nets[k]) == Sum(Flatten(parms[k]))
    {
      OneMore(parms, idx);
      if parms[idx].Missing? {
        nets := nets + [NoNet];
        errors := errors + 1;
        continue;
      }
      var operand := ElaborateLnet(parms[idx]);
      nets := nets + [operand];
      if operand == NoNet {
        errors := errors + 1;
      } else if IsUnpacked(parms[idx]) {
        errors := errors + 1;
        continue;
      } else {
        width := width + NetWidth(operand);
      }
      SumConcat(FlattenAll(parms[..idx]), Flatten(parms[idx]));
    }
    assert parms[..|parms|] == parms;
    if errors != 0 {
      return NoNet;
    }
    var selects := TileOperands(parms, nets, width);
    net := Tiled(width, selects);
    LnetIs(l);
  }

  lemma OperandsOf(l: Lval)
    requires l.Concat? && !l.repeated
    ensures (Clean(l) <==> CleanAll(l.parms)) && Flatten(l) == FlattenAll(l.parms)
  {
  }

  lemma LnetIs(l: Lval)
    requires l.Concat? && Clean(l)
    ensures LnetOf(l) == Tiled(Sum(FlattenAll(l.parms)), SelectsOf(l.parms))
  {
  }

  /** Lay the operands out from the most significant one down. */
  method TileOperands(ghost parms: seq<Lval>, nets: seq<Lnet>, total: nat) returns (selects: seq<PartSelect>)
    requires CleanAll(parms) && total == Sum(FlattenAll(parms)) && |nets| == |parms|
    requires forall k | 0 <= k < |parms| ::
      Clean(parms[k]) && nets[k] == LnetOf(parms[k]) && NetWidth(nets[k]) == Sum(Flatten(parms[k]))
    ensures selects == SelectsOf(parms)
  {
    hide Flatten, FlattenAll, Clean, CleanAll, LnetOf, SelectsOf, Sum, Reverse, NetWidth;
    selects := [];
    var width := total;
    assert parms[0..] == parms;
    for idx := 0 to |nets|
      invariant CleanAll(parms[idx..]) && width == Sum(FlattenAll(parms[idx..]))
      invariant selects + SelectsOf(parms[idx..]) == SelectsOf(parms)
    {
      assert parms[idx..][1..] == parms[idx + 1..] && parms[idx..][0] == parms[idx];
      NextOperand(parms[idx..]);
      var wid := NetWidth(nets[idx]);
      var off := width - wid;
      selects := selects + [PartSelect(off, wid, nets[idx])];
      width := width - wid;
    }
    NoOperand(parms[|nets|..]);
    assert width == 0;
  }

  lemma NextOperand(parms: seq<Lval>)
    requires CleanAll(parms) && parms != []
    ensures CleanAll(parms[1..]) && Clean(parms[0])
    ensures Sum(FlattenAll(parms)) == Sum(Flatten(parms[0])) + Sum(FlattenAll(parms[1..]))
    ensures SelectsOf(parms) ==
      [PartSelect(Sum(FlattenAll(parms[1..])), Sum(Flatten(parms[0])), LnetOf(parms[0]))] + SelectsOf(parms[1..])
  {
    hide Sum, Flatten, LnetOf;
    SumConcat(Flatten(parms[0]), FlattenAll(parms[1..]));
  }

  lemma NoOperand(parms: seq<Lval>)
    requires parms == []
    ensures CleanAll(parms) && Sum(FlattenAll(parms)) == 0 && SelectsOf(parms) == []
  {
  }
}
