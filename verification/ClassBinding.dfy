/** Binding classes to their base classes: the super links never form a cycle, so every walk
    over the ancestors of a class ends. */
module ClassBinding {

  type ClassId = nat

  /** The super class of each class that has been given one. */
  type Supers = map<ClassId, ClassId>

  datatype Ancestor = Nobody | Found(class_: ClassId)

  /** The ancestor `n` links up. */
  function Up(supers: Supers, c: ClassId, n: nat): Ancestor
    decreases n
  {
    if n == 0 then Found(c)
    else if c in supers then Up(supers, supers[c], n - 1)
    else Nobody
  }

  ghost predicate Reaches(supers: Supers, a: ClassId, b: ClassId) {
    exists n: nat :: Up(supers, a, n) == Found(b)
  }

  /** The first `n` classes on the way up from `a` are not `b`. */
  ghost predicate Avoids(supers: Supers, a: ClassId, b: ClassId, n: nat) {
    forall i: nat | i < n :: Up(supers, a, i) != Found(b)
  }

  ghost predicate Acyclic(supers: Supers) {
    forall c: ClassId, n: nat | n > 0 :: Up(supers, c, n) != Found(c)
  }

  lemma {:induction false} UpAgain(supers: Supers, c: ClassId, m: nat, n: nat)
    requires Up(supers, c, m).Found?
    decreases m
    ensures Up(supers, c, m + n) == Up(supers, Up(supers, c, m).class_, n)
  {
    if m > 0 {
      UpAgain(supers, supers[c], m - 1, n);
    }
  }

  lemma {:induction false} UpBefore(supers: Supers, c: ClassId, m: nat, n: nat)
    requires m <= n && Up(supers, c, n).Found?
    ensures Up(supers, c, m).Found?
    decreases m
  {
    if m > 0 {
      UpBefore(supers, supers[c], m - 1, n - 1);
    }
  }

  /** A walk that does not leave `derived` is the same whatever `derived`'s own link is. */
  lemma {:induction false} SameWalk(a: Supers, b: Supers, derived: ClassId, c: ClassId, n: nat)
    requires forall k | k != derived :: (k in a <==> k in b) && (k in a ==> a[k] == b[k])
    requires Avoids(a, c, derived, n)
    ensures Up(a, c, n) == Up(b, c, n)
    decreases n
  {
    if n > 0 {
      assert Up(a, c, 0) == Found(c);
      if c in a {
        forall i: nat | i < n - 1 ensures Up(a, a[c], i) != Found(derived) {
          assert Up(a, c, i + 1) != Found(derived);
        }
        SameWalk(a, b, derived, a[c], n - 1);
      }
    }
  }

  /** The first time that a walk comes to `b`. */
  lemma FirstVisit(supers: Supers, a: ClassId, b: ClassId, n: nat) returns (m: nat)
    requires Up(supers, a, n) == Found(b)
    ensures m <= n && Up(supers, a, m) == Found(b)
    ensures Avoids(supers, a, b, m)
  {
    m := 0;
    while Up(supers, a, m) != Found(b)
      invariant m <= n && Avoids(supers, a, b, m)
      decreases n - m
    {
      m := m + 1;
    }
  }

  /** A link from `derived` to `base` closes a cycle exactly if `base` already reaches
      `derived`. */
  lemma LinkClosesCycle(supers: Supers, derived: ClassId, base: ClassId)
    requires Acyclic(supers)
    ensures Reaches(supers, base, derived) <==> !Acyclic(supers[derived := base])
  {
    var linked := supers[derived := base];
    if Reaches(supers, base, derived) {
      var n: nat :| Up(supers, base, n) == Found(derived);
      var m := FirstVisit(supers, base, derived, n);
      SameWalk(supers, linked, derived, base, m);
      assert Up(linked, derived, m + 1) == Found(derived);
    }
    if !Acyclic(linked) {
      var c: ClassId, n: nat :| n > 0 && Up(linked, c, n) == Found(c);
      if Avoids(linked, c, derived, n) {
        SameWalk(linked, supers, derived, c, n);
        assert false;
      }
      var i: nat :| i < n && Up(linked, c, i) == Found(derived);
      UpAgain(linked, c, i, n);
      UpAgain(linked, c, n, i);
      assert Up(linked, derived, n) == Found(derived);
      assert Up(linked, base, n - 1) == Found(derived);
      var m := FirstVisit(linked, base, derived, n - 1);
      SameWalk(linked, supers, derived, base, m);
    }
  }

  lemma {:induction false} UpInLarger(small: Supers, large: Supers, c: ClassId, n: nat)
    requires forall k | k in small :: k in large && large[k] == small[k]
    requires Up(small, c, n).Found?
    ensures Up(large, c, n) == Up(small, c, n)
    decreases n
  {
    if n > 0 {
      UpInLarger(small, large, small[c], n - 1);
    }
  }

  // ----- the declared hierarchy

  datatype Base = NoBase | NotAClass | BaseClass(base: ClassId)
  datatype ClassDecl = ClassDecl(id: ClassId, base: Base)

  /** The super links there are, and those that the declarations ask for. */
  function Declared(start: Supers, classes: seq<ClassDecl>): Supers {
    if classes == [] then start
    else
      var c := classes[|classes| - 1];
      var before := Declared(start, classes[..|classes| - 1]);
      if c.base.BaseClass? then before[c.id := c.base.base] else before
  }

  /** Every class is bound once. */
  ghost predicate Distinct(start: Supers, classes: seq<ClassDecl>) {
    && (forall i | 0 <= i < |classes| :: classes[i].id !in start)
    && forall i, j | 0 <= i < j < |classes| :: classes[i].id != classes[j].id
  }

  lemma {:induction false} DeclaredHolds(start: Supers, classes: seq<ClassDecl>, k: nat)
    requires Distinct(start, classes) && k <= |classes|
    ensures forall c | c in Declared(start, classes[..k]) ::
              c in Declared(start, classes) && Declared(start, classes)[c] == Declared(start, classes[..k])[c]
    ensures forall c | c in Declared(start, classes[..k]) :: c in start || exists i :: 0 <= i < k && classes[i].id == c
    decreases |classes| - k, k
  {
    DeclaredIds(start, classes, k);
    if k == |classes| {
      assert classes[..k] == classes;
    } else {
      DeclaredHolds(start, classes, k + 1);
      assert classes[..k + 1][..k] == classes[..k];
      assert classes[..k + 1][k] == classes[k];
    }
  }

  lemma {:induction false} DeclaredIds(start: Supers, classes: seq<ClassDecl>, k: nat)
    requires k <= |classes|
    ensures forall c | c in Declared(start, classes[..k]) :: c in start || exists i :: 0 <= i < k && classes[i].id == c
  {
    if k > 0 {
      DeclaredIds(start, classes, k - 1);
      assert classes[..k][..k - 1] == classes[..k - 1];
      assert classes[..k][k - 1] == classes[k - 1];
    }
  }

  /** The links of all classes but `classes[i]` and the later ones. */
  function Earlier(supers: Supers, classes: seq<ClassDecl>, i: nat): Supers {
    map c | c in supers && (forall k | i <= k < |classes| :: classes[k].id != c) :: supers[c]
  }

  /** The first `n` declarations whose base is no class. */
  function NotClasses(classes: seq<ClassDecl>, n: nat): set<nat> {
    set i: nat | i < n && i < |classes| && classes[i].base.NotAClass?
  }

  /** The first `n` declarations that ask for a link but have none. */
  function Unlinked(supers: Supers, classes: seq<ClassDecl>, n: nat): set<nat> {
    set i: nat | i < n && i < |classes| && classes[i].base.BaseClass? && classes[i].id !in supers
  }

  /** Of the first `n` declarations, those have the link that they ask for with which no cycle is
      closed over the links there were before; nothing else is new. */
  ghost predicate Bound(start: Supers, supers: Supers, classes: seq<ClassDecl>, n: nat) {
    && (forall c | c in start :: c in supers && supers[c] == start[c])
    && (forall c | c in supers && c !in start ::
          exists i: nat :: i < n && i < |classes| && classes[i].id == c && classes[i].base == BaseClass(supers[c]))
    && forall i: nat | i < n && i < |classes| && classes[i].base.BaseClass? ::
         classes[i].id in supers <==> Acyclic(Earlier(supers, classes, i)[classes[i].id := classes[i].base.base])
  }

  lemma NoneBound(start: Supers, classes: seq<ClassDecl>)
    ensures Bound(start, start, classes, 0) && NotClasses(classes, 0) == {} && Unlinked(start, classes, 0) == {}
  {
  }

  /** What binding `decl` makes of the links. */
  ghost predicate Linked(supers: Supers, supers': Supers, decl: ClassDecl) {
    if decl.base.BaseClass? && Acyclic(supers[decl.id := decl.base.base])
    then supers' == supers[decl.id := decl.base.base]
    else supers' == supers
  }

  /** One more declaration: its link is set or not. */
  lemma NextBound(start: Supers, supers: Supers, supers': Supers, classes: seq<ClassDecl>, i: nat)
    requires Distinct(start, classes) && i < |classes| && Bound(start, supers, classes, i)
    requires Linked(supers, supers', classes[i])
    ensures Bound(start, supers', classes, i + 1)
  {
    hide Acyclic, Earlier;
    NotYet(start, supers, classes, i);
    forall j: nat | j <= i ensures Earlier(supers', classes, j) == Earlier(supers, classes, j) {
      EarlierKept(supers, supers', classes, i, j);
    }
    forall c | c in supers' && c !in start
      ensures exists k: nat ::
        k < i + 1 && k < |classes| && classes[k].id == c && classes[k].base == BaseClass(supers'[c])
    {
      if c == classes[i].id {
        assert classes[i].base == BaseClass(supers'[c]);
      } else {
        var k: nat :| k < i && k < |classes| && classes[k].id == c && classes[k].base == BaseClass(supers[c]);
      }
    }
  }

  lemma EarlierKept(supers: Supers, supers': Supers, classes: seq<ClassDecl>, i: nat, j: nat)
    requires j <= i < |classes| && Linked(supers, supers', classes[i])
    requires classes[i].id !in supers
    ensures Earlier(supers', classes, j) == Earlier(supers, classes, j)
  {
    hide Acyclic;
    assert classes[i].id !in Earlier(supers', classes, j);
  }

  lemma NextUnlinked(supers: Supers, supers': Supers, classes: seq<ClassDecl>, i: nat)
    requires i < |classes| && Linked(supers, supers', classes[i]) && classes[i].id !in supers
    requires forall k | 0 <= k < i :: classes[k].id != classes[i].id
    ensures Unlinked(supers', classes, i + 1) ==
      Unlinked(supers, classes, i) + if classes[i].base.BaseClass? && supers' == supers then {i} else {}
    ensures NotClasses(classes, i + 1) == NotClasses(classes, i) + if classes[i].base.NotAClass? then {i} else {}
    ensures i !in Unlinked(supers, classes, i) && i !in NotClasses(classes, i)
  {
    hide Acyclic;
  }

  /** The links made so far are not made over. */
  lemma NotYet(start: Supers, supers: Supers, classes: seq<ClassDecl>, i: nat)
    requires Distinct(start, classes) && i < |classes| && Bound(start, supers, classes, i)
    ensures Earlier(supers, classes, i) == supers && classes[i].id !in supers
  {
    hide Acyclic;
    forall c | c in supers ensures forall k | i <= k < |classes| :: classes[k].id != c {
      if c !in start {
        var j: nat :| j < i && classes[j].id == c && classes[j].base == BaseClass(supers[c]);
      }
    }
  }

  /** The first `n` declarations have been bound, with `cycles` cycles and `errors` errors. */
  ghost predicate Tally(start: Supers, supers: Supers, classes: seq<ClassDecl>, n: nat, cycles: nat, errors: nat)
    requires n <= |classes|
  {
    && Bound(start, supers, classes, n)
    && cycles == |Unlinked(supers, classes, n)|
    && errors == |NotClasses(classes, n)| + cycles
    && (cycles == 0 ==> supers == Declared(start, classes[..n]))
    && (cycles > 0 ==> !Acyclic(Declared(start, classes)))
    && forall c | c in supers :: c in Declared(start, classes) && supers[c] == Declared(start, classes)[c]
  }

  lemma NoTally(start: Supers, classes: seq<ClassDecl>)
    requires Distinct(start, classes)
    ensures Tally(start, start, classes, 0, 0, 0)
  {
    NoneBound(start, classes);
    hide Bound, Acyclic, Unlinked, NotClasses;
    DeclaredHolds(start, classes, 0);
    assert Declared(start, classes[..0]) == start;
  }

  lemma NextTally(start: Supers, supers: Supers, supers': Supers, classes: seq<ClassDecl>, i: nat, cycles: nat,
                  errors: nat)
    requires Distinct(start, classes) && i < |classes| && Tally(start, supers, classes, i, cycles, errors)
    requires Linked(supers, supers', classes[i])
    ensures classes[i].id !in supers
    ensures var cycles' := if classes[i].base.BaseClass? && supers' == supers then cycles + 1 else cycles;
      Tally(start, supers', classes, i + 1, cycles',
        errors + if classes[i].base.NotAClass? then 1 else cycles' - cycles)
  {
    hide Acyclic, Bound, Unlinked, NotClasses, Declared, Earlier;
    NextBound(start, supers, supers', classes, i);
    NotYet(start, supers, classes, i);
    NextUnlinked(supers, supers', classes, i);
    DeclaredNext(start, classes, i);
    DeclaresLink(start, classes, i);
    if classes[i].base.BaseClass? && supers' == supers {
      LargerCyclic(supers[classes[i].id := classes[i].base.base], Declared(start, classes));
    }
  }

  lemma DeclaredNext(start: Supers, classes: seq<ClassDecl>, i: nat)
    requires i < |classes|
    ensures Declared(start, classes[..i + 1]) ==
      if classes[i].base.BaseClass? then Declared(start, classes[..i])[classes[i].id := classes[i].base.base]
      else Declared(start, classes[..i])
  {
    assert classes[..i + 1][..i] == classes[..i];
    assert classes[..i + 1][i] == classes[i];
  }

  /** A link that is missing would close a cycle at the end, too. */
  lemma MissingCloses(start: Supers, supers: Supers, classes: seq<ClassDecl>, i: nat)
    requires Bound(start, supers, classes, |classes|) && i < |classes| && classes[i].base.BaseClass?
    requires classes[i].id !in supers
    ensures !Acyclic(supers[classes[i].id := classes[i].base.base])
  {
    LargerCyclic(Earlier(supers, classes, i)[classes[i].id := classes[i].base.base],
                 supers[classes[i].id := classes[i].base.base]);
  }

  class ClassBinder {
    var supers: Supers
    var errors: nat
    /** How many of the errors are inheritance cycles. */
    var cycles: nat

    constructor ()
      ensures supers == map[] && errors == 0 && cycles == 0
      ensures Acyclic(supers)
    {
      supers, errors, cycles := map[], 0, 0;
      new;
      assert forall c: ClassId, n: nat | n > 0 :: Up(supers, c, n) == Nobody;
    }

    /** Bind one class: its link is set unless it would close a cycle, and then nothing is. */
    method BindSuper(decl: ClassDecl)
      requires Acyclic(supers)
      modifies this
      ensures Acyclic(supers)
      ensures decl.base.NoBase? ==> supers == old(supers) && errors == old(errors) && cycles == old(cycles)
      ensures decl.base.NotAClass? ==> supers == old(supers) && errors == old(errors) + 1 && cycles == old(cycles)
      ensures decl.base.BaseClass? ==>
        var linked := old(supers)[decl.id := decl.base.base];
        if Acyclic(linked) then supers == linked && errors == old(errors) && cycles == old(cycles)
        else supers == old(supers) && errors == old(errors) + 1 && cycles == old(cycles) + 1
    {
      if decl.base.NoBase? {
        return;
      }
      if decl.base.NotAClass? {
        errors := errors + 1;
        return;
      }
      var base := decl.base.base;
      LinkClosesCycle(supers, decl.id, base);
      var ancestor := Found(base);
      ghost var n: nat := 0;
      ghost var left := supers.Keys;
      while ancestor.Found?
        invariant supers == old(supers) && errors == old(errors) && cycles == old(cycles)
        invariant ancestor == Up(supers, base, n)
        invariant Avoids(supers, base, decl.id, n)
        invariant left <= supers.Keys
        invariant forall c | c in supers.Keys - left :: exists i: nat :: i < n && Up(supers, base, i) == Found(c)
        decreases ancestor.Found?, left
      {
        var here := ancestor.class_;
        if here == decl.id {
          errors, cycles := errors + 1, cycles + 1;
          return;
        }
        UpAgain(supers, base, n, 1);
        NotVisited(supers, base, n);
        left := left - {here};
        ancestor := if here in supers then Found(supers[here]) else Nobody;
        assert Up(supers, here, 1) == ancestor;
        n := n + 1;
      }
      NotReached(supers, base, decl.id, n);
      supers := supers[decl.id := base];
    }

    /** Bind the classes of a scope: a cycle is reported exactly if the declarations ask for
        one, and otherwise every link asked for is there. */
    method BindAll(classes: seq<ClassDecl>)
      requires Distinct(supers, classes) && Acyclic(supers)
      modifies this
      ensures Acyclic(supers)
      ensures cycles == old(cycles) <==> Acyclic(Declared(old(supers), classes))
      ensures cycles == old(cycles) ==> supers == Declared(old(supers), classes)
      ensures Bound(old(supers), supers, classes, |classes|)
      ensures forall i: nat | i < |classes| && classes[i].base.BaseClass? && classes[i].id !in supers ::
                !Acyclic(supers[classes[i].id := classes[i].base.base])
      ensures cycles == old(cycles) + |Unlinked(supers, classes, |classes|)|
      ensures errors == old(errors) + |NotClasses(classes, |classes|)| + (cycles - old(cycles))
    {
      hide Acyclic, Bound, Tally, Declared, Unlinked, NotClasses, Distinct;
      ghost var start := supers;
      NoTally(start, classes);
      for i := 0 to |classes|
        invariant Acyclic(supers)
        invariant cycles >= old(cycles) && errors >= old(errors)
        invariant Tally(start, supers, classes, i, cycles - old(cycles), errors - old(errors))
      {
        ghost var before, c, e := supers, cycles, errors;
        BindSuper(classes[i]);
        NextTally(start, before, supers, classes, i, c - old(cycles), e - old(errors));
      }
      AllTally(start, supers, classes, cycles - old(cycles), errors - old(errors));
    }
  }

  lemma AllTally(start: Supers, supers: Supers, classes: seq<ClassDecl>, cycles: nat, errors: nat)
    requires Tally(start, supers, classes, |classes|, cycles, errors) && Acyclic(supers)
    ensures cycles == 0 <==> Acyclic(Declared(start, classes))
    ensures cycles == 0 ==> supers == Declared(start, classes)
    ensures Bound(start, supers, classes, |classes|)
    ensures forall i: nat | i < |classes| && classes[i].base.BaseClass? && classes[i].id !in supers ::
              !Acyclic(supers[classes[i].id := classes[i].base.base])
    ensures cycles == |Unlinked(supers, classes, |classes|)| && errors == |NotClasses(classes, |classes|)| + cycles
  {
    hide Acyclic, Bound, Unlinked, NotClasses;
    assert classes[..|classes|] == classes;
    forall i: nat | i < |classes| && classes[i].base.BaseClass? && classes[i].id !in supers
      ensures !Acyclic(supers[classes[i].id := classes[i].base.base])
    {
      MissingCloses(start, supers, classes, i);
    }
  }

  lemma DeclaresLink(start: Supers, classes: seq<ClassDecl>, i: nat)
    requires Distinct(start, classes) && i < |classes|
    ensures classes[i].base.BaseClass? ==>
      && classes[i].id in Declared(start, classes) && Declared(start, classes)[classes[i].id] == classes[i].base.base
  {
    DeclaredHolds(start, classes, i + 1);
    assert classes[..i + 1][i] == classes[i];
    if classes[i].base.BaseClass? {
      assert classes[i].id in Declared(start, classes[..i + 1]);
    }
  }

  lemma LargerCyclic(small: Supers, large: Supers)
    requires forall k | k in small :: k in large && large[k] == small[k]
    requires !Acyclic(small)
    ensures !Acyclic(large)
  {
    var c: ClassId, n: nat :| n > 0 && Up(small, c, n) == Found(c);
    UpInLarger(small, large, c, n);
  }

  /** In an acyclic hierarchy no walk comes to the same class twice. */
  lemma NotVisited(supers: Supers, base: ClassId, n: nat)
    requires Acyclic(supers) && Up(supers, base, n).Found?
    ensures forall i: nat | i < n :: Up(supers, base, i) != Up(supers, base, n)
  {
    forall i: nat | i < n ensures Up(supers, base, i) != Up(supers, base, n) {
      UpBefore(supers, base, i, n);
      UpAgain(supers, base, i, n - i);
    }
  }

  /** A walk that ended without meeting `derived` shows that it cannot be reached. */
  lemma NotReached(supers: Supers, base: ClassId, derived: ClassId, n: nat)
    requires Up(supers, base, n) == Nobody
    requires Avoids(supers, base, derived, n)
    ensures !Reaches(supers, base, derived)
  {
    forall m: nat ensures Up(supers, base, m) != Found(derived) {
      if m >= n && Up(supers, base, m).Found? {
        UpBefore(supers, base, n, m);
      }
    }
  }
}
