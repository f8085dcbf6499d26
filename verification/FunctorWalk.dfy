/** The circular scan of the node list when a visited node may delete itself without being
    counted as an optimization, as a flip-flop that feeds itself does. */
module FunctorWalk {

  type NodeId = nat

  ghost predicate Distinct(s: seq<NodeId>) {
    forall i, j | 0 <= i < j < |s| :: s[i] != s[j]
  }

  /** The nodes of `ids` that do not delete themselves. */
  function Survivors(ids: seq<NodeId>, dying: set<NodeId>): seq<NodeId> {
    if ids == [] then []
    else (if ids[0] in dying then [] else [ids[0]]) + Survivors(ids[1..], dying)
  }

  lemma {:induction false} SurvivorsSnoc(ids: seq<NodeId>, id: NodeId, dying: set<NodeId>)
    ensures Survivors(ids + [id], dying) == Survivors(ids, dying) + if id in dying then [] else [id]
  {
    if ids == [] {
      assert ids + [id] == [id];
    } else {
      assert (ids + [id])[1..] == ids[1..] + [id];
      SurvivorsSnoc(ids[1..], id, dying);
    }
  }

  /** What a scan visits, in order: it starts at the anchor, the last node, and stops when it
      comes round to whatever node is the anchor by then. */
  function Scanned(ids: seq<NodeId>, dying: set<NodeId>): seq<NodeId> {
    var n := |ids|;
    if n == 0 then []
    else if n == 1 || ids[n - 1] !in dying then [ids[n - 1]] + ids[..n - 1]
    else [ids[n - 1]] + ids[..n - 2]
  }

  /** What a scan leaves: the survivors, and the node before a self-deleting anchor even if it
      would have deleted itself. */
  function Remaining(ids: seq<NodeId>, dying: set<NodeId>): seq<NodeId> {
    var n := |ids|;
    if n >= 2 && ids[n - 1] in dying then Survivors(ids[..n - 2], dying) + [ids[n - 2]] else Survivors(ids, dying)
  }

  // ----- a reference: what is visited and what is left, element by element

  /** The first visit is to the last node; the others follow in list order, but for the node before
      the last one if the last one deletes itself. */
  ghost predicate InTurn(ids: seq<NodeId>, dying: set<NodeId>, visited: seq<NodeId>) {
    var n := |ids|;
    && |visited| == (if n >= 2 && ids[n - 1] in dying then n - 1 else n)
    && (n > 0 ==> visited[0] == ids[n - 1])
    && forall i | 1 <= i < |visited| :: visited[i] == ids[i - 1]
  }

  /** `a` comes before `b` in the list. */
  ghost predicate Before(ids: seq<NodeId>, a: NodeId, b: NodeId) {
    exists i, j :: 0 <= i < j < |ids| && ids[i] == a && ids[j] == b
  }

  ghost predicate InListOrder(ids: seq<NodeId>, some: seq<NodeId>) {
    forall i, j | 0 <= i < j < |some| :: Before(ids, some[i], some[j])
  }

  /** What deletes itself when visited is gone, the rest is there in list order. */
  ghost predicate LeftOver(ids: seq<NodeId>, dying: set<NodeId>, visited: seq<NodeId>, left: seq<NodeId>) {
    && (forall id :: id in left <==> id in ids && !(id in dying && id in visited))
    && InListOrder(ids, left)
  }

  lemma {:induction false} SurvivorsAre(ids: seq<NodeId>, dying: set<NodeId>)
    ensures forall id :: id in Survivors(ids, dying) <==> id in ids && id !in dying
    ensures InListOrder(ids, Survivors(ids, dying))
  {
    if ids != [] {
      SurvivorsAre(ids[1..], dying);
      InFront(ids, Survivors(ids[1..], dying));
    }
  }

  lemma InFront(ids: seq<NodeId>, rest: seq<NodeId>)
    requires ids != [] && InListOrder(ids[1..], rest) && forall id | id in rest :: id in ids[1..]
    ensures InListOrder(ids, rest) && InListOrder(ids, [ids[0]] + rest)
  {
    forall i, j | 0 <= i < j < |rest| ensures Before(ids, rest[i], rest[j]) {
      BeforeLater(ids, rest[i], rest[j]);
    }
    forall j | 0 <= j < |rest| ensures Before(ids, ids[0], rest[j]) {
      assert rest[j] in ids[1..];
      var k :| 0 <= k < |ids[1..]| && ids[1..][k] == rest[j];
      assert ids[k + 1] == rest[j];
    }
  }

  lemma BeforeLater(ids: seq<NodeId>, a: NodeId, b: NodeId)
    requires ids != [] && Before(ids[1..], a, b)
    ensures Before(ids, a, b)
  {
    var i, j :| 0 <= i < j < |ids[1..]| && ids[1..][i] == a && ids[1..][j] == b;
    assert ids[i + 1] == a && ids[j + 1] == b;
  }

  lemma BeforeEarlier(ids: seq<NodeId>, n: nat, a: NodeId, b: NodeId)
    requires n <= |ids| && Before(ids[..n], a, b)
    ensures Before(ids, a, b)
  {
    var i, j :| 0 <= i < j < |ids[..n]| && ids[..n][i] == a && ids[..n][j] == b;
    assert ids[i] == a && ids[j] == b;
  }

  lemma ScannedIs(ids: seq<NodeId>, dying: set<NodeId>)
    ensures InTurn(ids, dying, Scanned(ids, dying))
  {
  }

  lemma RemainingIs(ids: seq<NodeId>, dying: set<NodeId>)
    requires Distinct(ids)
    ensures LeftOver(ids, dying, Scanned(ids, dying), Remaining(ids, dying))
  {
    hide Survivors;
    var n, left, visited := |ids|, Remaining(ids, dying), Scanned(ids, dying);
    if n >= 2 && ids[n - 1] in dying {
      SurvivorsAre(ids[..n - 2], dying);
      var some := Survivors(ids[..n - 2], dying);
      assert left == some + [ids[n - 2]];
      MissedOne(ids, dying);
      forall i, j | 0 <= i < j < |left| ensures Before(ids, left[i], left[j]) {
        if j < |some| {
          assert Before(ids[..n - 2], some[i], some[j]);
          BeforeEarlier(ids, n - 2, some[i], some[j]);
        } else {
          assert some[i] in some && some[i] in ids[..n - 2];
          var k :| 0 <= k < n - 2 && ids[..n - 2][k] == some[i];
          assert ids[k] == left[i] && ids[n - 2] == left[j];
        }
      }
    } else {
      SurvivorsAre(ids, dying);
      ScanVisitsAllIff(ids, dying);
    }
  }

  lemma MissedOne(ids: seq<NodeId>, dying: set<NodeId>)
    requires Distinct(ids) && |ids| >= 2 && ids[|ids| - 1] in dying
    ensures forall id :: id in ids <==> id in ids[..|ids| - 2] || id == ids[|ids| - 2] || id == ids[|ids| - 1]
    ensures forall id :: id in Scanned(ids, dying) <==> id in ids[..|ids| - 2] || id == ids[|ids| - 1]
    ensures ids[|ids| - 2] !in ids[..|ids| - 2] && ids[|ids| - 1] !in ids[..|ids| - 1]
  {
    var n := |ids|;
    assert ids == ids[..n - 2] + [ids[n - 2], ids[n - 1]];
  }

  /** The scan: `done` holds the survivors already passed, `rest` the nodes not reached yet.
      The anchor is the last node of the list. */
  method Scan(ids: seq<NodeId>, dying: set<NodeId>) returns (visited: seq<NodeId>, left: seq<NodeId>)
    requires Distinct(ids)
    ensures visited == Scanned(ids, dying)
    ensures left == Remaining(ids, dying)
    ensures InTurn(ids, dying, visited) && LeftOver(ids, dying, visited, left)
  {
    hide Survivors, Scanned, Remaining, InTurn, LeftOver;
    ScannedIs(ids, dying);
    RemainingIs(ids, dying);
    NothingToScan(dying);
    visited, left := [], ids;
    if left == [] {
      return;
    }
    // the first visit is to the anchor; the next node is the front of the list
    var cur := left[|left| - 1];
    visited := [cur];
    if cur in dying {
      left := left[..|left| - 1];
      if left == [] {
        AloneScanned(ids, dying);
        return;
      }
      AnchorDies(ids, dying);
    } else {
      AnchorStays(ids, dying);
    }
    left, visited := ScanOn(left, dying, visited);
  }

  lemma NothingToScan(dying: set<NodeId>)
    ensures Scanned([], dying) == [] && Remaining([], dying) == []
  {
  }

  lemma AloneScanned(ids: seq<NodeId>, dying: set<NodeId>)
    requires |ids| == 1 && ids[0] in dying
    ensures Scanned(ids, dying) == [ids[0]] && Remaining(ids, dying) == []
  {
    NoSurvivors(dying);
    assert ids[1..] == [] && Survivors(ids[1..], dying) == [];
  }

  lemma AnchorDies(ids: seq<NodeId>, dying: set<NodeId>)
    requires |ids| >= 2 && ids[|ids| - 1] in dying
    ensures var body := ids[..|ids| - 1];
      && Scanned(ids, dying) == [ids[|ids| - 1]] + body[..|body| - 1]
      && Remaining(ids, dying) == Survivors(body[..|body| - 1], dying) + [body[|body| - 1]]
  {
    hide Survivors;
    assert ids[..|ids| - 1][..|ids| - 2] == ids[..|ids| - 2];
  }

  lemma AnchorStays(ids: seq<NodeId>, dying: set<NodeId>)
    requires ids != [] && ids[|ids| - 1] !in dying
    ensures Scanned(ids, dying) == [ids[|ids| - 1]] + ids[..|ids| - 1]
    ensures Remaining(ids, dying) == Survivors(ids[..|ids| - 1], dying) + [ids[|ids| - 1]]
  {
    hide Survivors;
    var k := |ids| - 1;
    SurvivorsSnoc(ids[..k], ids[k], dying);
    assert ids[..k] + [ids[k]] == ids;
  }

  lemma NoSurvivors(dying: set<NodeId>)
    ensures Survivors([], dying) == []
  {
  }

  /** From the front of the list to its anchor. Passing a survivor moves the scan one place
      on; a node that deletes itself leaves its successor in its place. */
  method ScanOn(body: seq<NodeId>, dying: set<NodeId>, seen: seq<NodeId>)
    returns (left: seq<NodeId>, visited: seq<NodeId>)
    requires body != []
    ensures left == Survivors(body[..|body| - 1], dying) + [body[|body| - 1]]
    ensures visited == seen + body[..|body| - 1]
  {
    hide Survivors;
    NoSurvivors(dying);
    left, visited := body, seen;
    var at: nat := 0;
    ghost var passed, before := 0, [];
    while at < |left| - 1
      invariant 0 <= passed < |body|
      invariant before == Survivors(body[..passed], dying) && at == |before|
      invariant left == before + body[passed..]
      invariant visited == seen + body[..passed]
      decreases |body| - passed
    {
      var node := left[at];
      Passing(body, dying, seen, passed, before, left);
      visited := visited + [node];
      if node in dying {
        left := left[..at] + left[at + 1..];
      } else {
        before := before + [node];
        at := at + 1;
      }
      passed := passed + 1;
    }
    assert passed == |body| - 1 && body[passed..] == [body[passed]];
  }

  /** One node passed, whether it stays or deletes itself. */
  lemma Passing(body: seq<NodeId>, dying: set<NodeId>, seen: seq<NodeId>, passed: nat, before: seq<NodeId>,
                left: seq<NodeId>)
    requires passed < |body| && before == Survivors(body[..passed], dying) && left == before + body[passed..]
    ensures left[|before|] == body[passed]
    ensures left[..|before|] + left[|before| + 1..] == before + body[passed + 1..]
    ensures left == (before + [body[passed]]) + body[passed + 1..]
    ensures Survivors(body[..passed + 1], dying) == before + if body[passed] in dying then [] else [body[passed]]
    ensures (seen + body[..passed]) + [body[passed]] == seen + body[..passed + 1]
  {
    hide Survivors;
    assert body[..passed + 1] == body[..passed] + [body[passed]];
    SurvivorsSnoc(body[..passed], body[passed], dying);
  }

  /** A scan visits every node exactly once, unless its first node deletes itself and is not
      alone: then the node before it in the list is never visited. */
  lemma ScanVisitsAllIff(ids: seq<NodeId>, dying: set<NodeId>)
    requires Distinct(ids)
    ensures Distinct(Scanned(ids, dying))
    ensures (forall id | id in ids :: id in Scanned(ids, dying)) <==>
            !(|ids| >= 2 && ids[|ids| - 1] in dying)
  {
    var n := |ids|;
    if n >= 2 {
      if ids[n - 1] in dying {
        assert ids[n - 2] in ids && ids[n - 2] !in Scanned(ids, dying);
      } else {
        forall id | id in ids ensures id in Scanned(ids, dying) {
          var i :| 0 <= i < n && ids[i] == id;
          if i < n - 1 {
            assert ids[..n - 1][i] == id;
          }
        }
      }
    }
  }
}
