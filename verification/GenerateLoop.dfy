/** Generate loops: unrolling stops, and what it unrolls is the orbit of the step expression. */
module GenerateLoop {

  /** The result of evaluating an expression that should be constant. */
  datatype Eval = NotConstant | Undefined | Value(value: int)

  /** A loop: its initial value, and test and step as functions of the genvar. `declared` says
      that the loop variable is local or a genvar in scope. */
  datatype Loop = Loop(declared: bool, init: Eval, test: int -> Eval, step: int -> Eval)

  /** A scope created for one value of the genvar. Its name holds that value as a 32-bit `int`. */
  datatype GenScope = GenScope(number: int, genvar: int)

  datatype Outcome = Done | Refused | AssertionFailed

  const MAX_BODIES := 500000

  function Int32(x: int): int {
    (x + 0x8000_0000) % 0x1_0000_0000 - 0x8000_0000
  }

  /** The genvar after `n` steps. */
  function Orbit(loop: Loop, n: nat): Eval {
    if n == 0 then loop.init
    else
      match Orbit(loop, n - 1)
      case Value(g) => loop.step(g)
      case other => other
  }

  /** The first `n` scopes. */
  function Prefix(loop: Loop, n: nat): seq<GenScope> {
    if n == 0 then []
    else
      Prefix(loop, n - 1) + match Orbit(loop, n - 1)
                            case Value(g) => [GenScope(Int32(g), g)]
                            case _ => []
  }

  function Numbers(scopes: seq<GenScope>): set<int> {
    set s | s in scopes :: s.number
  }

  /** Value `j` gives a scope the name that `g` would. */
  predicate Same32(loop: Loop, j: nat, g: int) {
    Orbit(loop, j).Value? && Int32(Orbit(loop, j).value) == Int32(g)
  }

  /** The test holds for value `i` and the scope name is free in the container. */
  ghost predicate Starts(loop: Loop, taken: set<int>, i: nat) {
    && Orbit(loop, i).Value?
    && var g := Orbit(loop, i).value;
    && loop.test(g).Value? && loop.test(g).value != 0
    && Int32(g) !in taken
    && forall j: nat | j < i :: !Same32(loop, j, g)
  }

  /** The body starts, and the step gives another defined value. */
  ghost predicate Runs(loop: Loop, taken: set<int>, i: nat) {
    && Starts(loop, taken, i)
    && var g := Orbit(loop, i).value;
    && loop.step(g).Value? && loop.step(g).value != g
  }

  ghost predicate AllRun(loop: Loop, taken: set<int>, n: nat) {
    forall i: nat | i < n :: Runs(loop, taken, i)
  }

  /** The loop ends by itself after `n` bodies. */
  ghost predicate EndsAfter(loop: Loop, taken: set<int>, n: nat) {
    && AllRun(loop, taken, n)
    && Orbit(loop, n).Value?
    && loop.test(Orbit(loop, n).value) == Value(0)
  }

  ghost predicate Completes(loop: Loop, taken: set<int>) {
    exists n: nat :: n <= MAX_BODIES && EndsAfter(loop, taken, n)
  }

  lemma {:induction false} PrefixIs(loop: Loop, taken: set<int>, n: nat)
    requires AllRun(loop, taken, n)
    ensures |Prefix(loop, n)| == n
    ensures forall i: nat | i < n ::
              && Orbit(loop, i).Value?
              && Prefix(loop, n)[i] == GenScope(Int32(Orbit(loop, i).value), Orbit(loop, i).value)
  {
    if n > 0 {
      PrefixIs(loop, taken, n - 1);
      assert Runs(loop, taken, n - 1);
    }
  }

  /** No two scopes of an unrolled loop share a name, so no two share a genvar value. */
  lemma PrefixDistinct(loop: Loop, taken: set<int>, n: nat)
    requires AllRun(loop, taken, n)
    ensures |Prefix(loop, n)| == n
    ensures forall i, j | 0 <= i < j < n ::
              && Prefix(loop, n)[i].genvar != Prefix(loop, n)[j].genvar
              && Prefix(loop, n)[i].number != Prefix(loop, n)[j].number
  {
    PrefixIs(loop, taken, n);
    forall i, j | 0 <= i < j < n
      ensures Prefix(loop, n)[i].genvar != Prefix(loop, n)[j].genvar
           && Prefix(loop, n)[i].number != Prefix(loop, n)[j].number
    {
      assert Runs(loop, taken, i) && Runs(loop, taken, j);
      assert !Same32(loop, i, Orbit(loop, j).value);
    }
  }

  lemma EndsOnce(loop: Loop, taken: set<int>, done: nat, n: nat)
    requires AllRun(loop, taken, done)
    requires EndsAfter(loop, taken, n)
    ensures n >= done
  {
    assert !Runs(loop, taken, n);
  }

  // ----- a reference: the scopes that a loop makes

  /** `number` is what a 32-bit `int` holds of `value`. */
  predicate Holds(number: int, value: int) {
    -0x8000_0000 <= number < 0x8000_0000 && (value - number) % 0x1_0000_0000 == 0
  }

  /** The genvar after the scopes `s`. */
  function NextValue(loop: Loop, s: seq<GenScope>): Eval {
    if s == [] then loop.init else loop.step(s[|s| - 1].genvar)
  }

  /** The scopes of the first values of the genvar: each is the step of the one before, the test
      holds of each, and the names are free and different. */
  ghost predicate Begun(loop: Loop, taken: set<int>, s: seq<GenScope>) {
    && (forall i | 0 <= i < |s| :: NextValue(loop, s[..i]) == Value(s[i].genvar))
    && (forall i | 0 <= i < |s| :: loop.test(s[i].genvar).Value? && loop.test(s[i].genvar).value != 0)
    && (forall i | 0 <= i < |s| :: Holds(s[i].number, s[i].genvar) && s[i].number !in taken)
    && forall i, j | 0 <= i < j < |s| :: s[i].number != s[j].number
  }

  /** After these scopes, not too many, the test fails. */
  ghost predicate Ended(loop: Loop, taken: set<int>, s: seq<GenScope>) {
    && Begun(loop, taken, s) && |s| <= 500000
    && NextValue(loop, s).Value? && loop.test(NextValue(loop, s).value) == Value(0)
  }

  /** There is no further scope, or there is one too many. */
  ghost predicate Furthest(loop: Loop, taken: set<int>, s: seq<GenScope>) {
    && Begun(loop, taken, s) && |s| <= 500001
    && (|s| <= 500000 ==> forall next :: !Begun(loop, taken, s + [next]))
  }

  lemma HeldOnce(number: int, value: int)
    ensures Holds(number, value) <==> number == Int32(value)
  {
    var m, r := 0x1_0000_0000, Int32(value);
    assert Holds(r, value);
    if Holds(number, value) {
      assert (r - number) % m == 0;
    }
  }

  lemma {:induction false} BegunIs(loop: Loop, taken: set<int>, s: seq<GenScope>, i: nat)
    requires Begun(loop, taken, s) && i < |s|
    ensures Orbit(loop, i) == Value(s[i].genvar) && s[i] == GenScope(Int32(s[i].genvar), s[i].genvar)
  {
    HeldOnce(s[i].number, s[i].genvar);
    assert NextValue(loop, s[..i]) == Value(s[i].genvar);
    if i > 0 {
      BegunIs(loop, taken, s, i - 1);
      assert s[..i][i - 1] == s[i - 1];
    }
  }

  /** The scopes of a beginning start, and but for the last they run. */
  lemma BegunStarts(loop: Loop, taken: set<int>, s: seq<GenScope>)
    requires Begun(loop, taken, s)
    ensures forall i: nat | i < |s| :: Starts(loop, taken, i) && (i + 1 < |s| ==> Runs(loop, taken, i))
    ensures s == Prefix(loop, |s|)
  {
    hide Int32;
    forall i: nat | i < |s|
      ensures Orbit(loop, i) == Value(s[i].genvar) && s[i] == GenScope(Int32(s[i].genvar), s[i].genvar)
    {
      BegunIs(loop, taken, s, i);
    }
    forall i: nat | i < |s| ensures Starts(loop, taken, i) && (i + 1 < |s| ==> Runs(loop, taken, i)) {
      forall j: nat | j < i ensures !Same32(loop, j, s[i].genvar) {
        assert s[j].number != s[i].number;
      }
      if i + 1 < |s| {
        assert NextValue(loop, s[..i + 1]) == Value(s[i + 1].genvar) && s[..i + 1][i] == s[i];
      }
    }
    StartedPrefix(loop, s, |s|);
    assert s[..|s|] == s;
  }

  lemma {:induction false} StartedPrefix(loop: Loop, s: seq<GenScope>, n: nat)
    requires n <= |s|
    requires forall i: nat | i < |s| ::
               Orbit(loop, i) == Value(s[i].genvar) && s[i] == GenScope(Int32(s[i].genvar), s[i].genvar)
    ensures Prefix(loop, n) == s[..n]
  {
    if n > 0 {
      StartedPrefix(loop, s, n - 1);
    }
  }

  /** The values that start have their scopes. */
  lemma StartsBegun(loop: Loop, taken: set<int>, n: nat)
    requires forall i: nat | i < n :: Starts(loop, taken, i)
    ensures |Prefix(loop, n)| == n && Begun(loop, taken, Prefix(loop, n))
  {
    hide Int32, Begun;
    StartedScopes(loop, taken, n);
    var s := Prefix(loop, n);
    forall i | 0 <= i < n ensures NextValue(loop, s[..i]) == Value(s[i].genvar) {
      assert Starts(loop, taken, i) && (i > 0 ==> Starts(loop, taken, i - 1));
    }
    forall i | 0 <= i < n ensures Holds(s[i].number, s[i].genvar) && s[i].number !in taken {
      assert Starts(loop, taken, i);
      HeldOnce(s[i].number, s[i].genvar);
    }
    forall i | 0 <= i < n ensures loop.test(s[i].genvar).Value? && loop.test(s[i].genvar).value != 0 {
      assert Starts(loop, taken, i);
    }
    forall i, j | 0 <= i < j < n ensures s[i].number != s[j].number {
      assert Starts(loop, taken, i) && Starts(loop, taken, j) && !Same32(loop, i, s[j].genvar);
    }
    BegunOf(loop, taken, s);
  }

  lemma BegunOf(loop: Loop, taken: set<int>, s: seq<GenScope>)
    requires forall i | 0 <= i < |s| :: NextValue(loop, s[..i]) == Value(s[i].genvar)
    requires forall i | 0 <= i < |s| :: loop.test(s[i].genvar).Value? && loop.test(s[i].genvar).value != 0
    requires forall i | 0 <= i < |s| :: Holds(s[i].number, s[i].genvar) && s[i].number !in taken
    requires forall i, j | 0 <= i < j < |s| :: s[i].number != s[j].number
    ensures Begun(loop, taken, s)
  {
  }

  lemma {:induction false} StartedScopes(loop: Loop, taken: set<int>, n: nat)
    requires forall i: nat | i < n :: Starts(loop, taken, i)
    ensures |Prefix(loop, n)| == n
    ensures forall i: nat | i < n ::
              && Orbit(loop, i).Value?
              && Prefix(loop, n)[i] == GenScope(Int32(Orbit(loop, i).value), Orbit(loop, i).value)
  {
    if n > 0 {
      StartedScopes(loop, taken, n - 1);
      assert Starts(loop, taken, n - 1);
    }
  }

  /** The loop ends by itself exactly if some scopes, not too many, are all that it makes. */
  lemma EndsIff(loop: Loop, taken: set<int>)
    ensures Completes(loop, taken) <==> exists s :: Ended(loop, taken, s)
  {
    hide Int32;
    if Completes(loop, taken) {
      var n: nat :| n <= MAX_BODIES && EndsAfter(loop, taken, n);
      EndsScopes(loop, taken, n);
    }
    if s :| Ended(loop, taken, s) {
      BegunStarts(loop, taken, s);
      assert EndsAfter(loop, taken, |s|) by {
        NextOrbit(loop, taken, s);
        LastRuns(loop, taken, s);
      }
    }
  }

  lemma NextOrbit(loop: Loop, taken: set<int>, s: seq<GenScope>)
    requires Begun(loop, taken, s)
    ensures NextValue(loop, s) == Orbit(loop, |s|)
  {
    if s != [] {
      BegunIs(loop, taken, s, |s| - 1);
    }
  }

  lemma LastRuns(loop: Loop, taken: set<int>, s: seq<GenScope>)
    requires Ended(loop, taken, s)
    ensures AllRun(loop, taken, |s|)
  {
    hide Int32;
    BegunStarts(loop, taken, s);
    if s != [] {
      BegunIs(loop, taken, s, |s| - 1);
    }
  }

  lemma EndsScopes(loop: Loop, taken: set<int>, n: nat)
    requires EndsAfter(loop, taken, n) && n <= 500000
    ensures |Prefix(loop, n)| == n && Ended(loop, taken, Prefix(loop, n))
  {
    hide Int32;
    forall i: nat | i < n ensures Starts(loop, taken, i) {
      assert Runs(loop, taken, i);
    }
    StartsBegun(loop, taken, n);
    NextOrbit(loop, taken, Prefix(loop, n));
  }

  /** Where the loop stops for whatever reason. */
  lemma StopsFurthest(loop: Loop, taken: set<int>, k: nat)
    requires AllRun(loop, taken, k) && k <= MAX_BODIES + 1 && (k == MAX_BODIES + 1 || !Runs(loop, taken, k))
    ensures var n := if k <= MAX_BODIES && Starts(loop, taken, k) then k + 1 else k;
      && |Prefix(loop, n)| == n && Furthest(loop, taken, Prefix(loop, n))
      && NextValue(loop, Prefix(loop, k)) == Orbit(loop, k)
  {
    hide Int32, Begun, Prefix;
    forall i: nat | i < k ensures Starts(loop, taken, i) {
      assert Runs(loop, taken, i);
    }
    hide Starts, Runs;
    StartsBegun(loop, taken, k);
    NextOrbit(loop, taken, Prefix(loop, k));
    var n := if k <= MAX_BODIES && Starts(loop, taken, k) then k + 1 else k;
    StartsBegun(loop, taken, n);
    if n <= 500000 {
      forall next ensures !Begun(loop, taken, Prefix(loop, n) + [next]) {
        NotFurther(loop, taken, k, n, next);
      }
    }
  }

  lemma NotFurther(loop: Loop, taken: set<int>, k: nat, n: nat, next: GenScope)
    requires !Runs(loop, taken, k) && n == (if Starts(loop, taken, k) then k + 1 else k) && |Prefix(loop, n)| == n
    ensures !Begun(loop, taken, Prefix(loop, n) + [next])
  {
    hide Begun, Starts, Runs, Prefix;
    if Begun(loop, taken, Prefix(loop, n) + [next]) {
      BegunStarts(loop, taken, Prefix(loop, n) + [next]);
    }
  }

  class Container {
    /** The numbers of the scopes that already have the loop's name. */
    var taken: set<int>
    var scopes: seq<GenScope>
    /** The genvar, while a loop over it is being unrolled. */
    var genvarTmp: Eval
    var errors: nat

    constructor (taken: set<int>)
      ensures this.taken == taken && scopes == [] && genvarTmp == NotConstant && errors == 0
    {
      this.taken := taken;
      scopes, genvarTmp, errors := [], NotConstant, 0;
    }

    /** Unroll a loop. It is done exactly if it ends by itself within the limit. `k` is the
        number of values that run; those have their scopes, and so has the next one if its body
        started. A test that is no longer constant fails an assertion; anything else that stops
        the loop is one error, and leaves the genvar set. */
    method GenerateScopeLoop(loop: Loop) returns (outcome: Outcome, ghost k: nat)
      modifies this
      ensures outcome.Done? <==> loop.declared && Completes(loop, old(taken))
      ensures outcome.Done? <==> loop.declared && exists s :: Ended(loop, old(taken), s)
      ensures k <= MAX_BODIES + 1 && AllRun(loop, old(taken), k)
      ensures loop.declared ==> k == MAX_BODIES + 1 || !Runs(loop, old(taken), k)
      ensures var bodies := if loop.declared && k <= MAX_BODIES && Starts(loop, old(taken), k) then k + 1 else k;
        && scopes == old(scopes) + Prefix(loop, bodies) && |Prefix(loop, bodies)| == bodies
        && taken == old(taken) + Numbers(Prefix(loop, bodies))
        && (loop.declared ==> Furthest(loop, old(taken), Prefix(loop, bodies)))
        && (outcome.Done? ==> Ended(loop, old(taken), Prefix(loop, bodies)))
      ensures outcome.AssertionFailed? <==>
        loop.declared && 0 < k && Orbit(loop, k).Value? && loop.test(Orbit(loop, k).value).NotConstant?
      ensures errors == old(errors) + if outcome.Refused? then 1 else 0
      ensures outcome.Done? ==> genvarTmp == NotConstant && EndsAfter(loop, old(taken), k)
      ensures !outcome.Done? ==>
        genvarTmp == if loop.declared && loop.init.Value? then Orbit(loop, k) else old(genvarTmp)
    {
      hide Ended, Furthest, Completes, EndsAfter, AllRun, Runs, Starts, Prefix, Numbers, Int32;
      NothingYet(loop, taken);
      EndsIff(loop, taken);
      assert scopes == old(scopes) + Prefix(loop, 0);
      k := 0;
      if !loop.declared {
        errors := errors + 1;
        outcome := Refused;
        return;
      }
      if !loop.init.Value? {
        errors := errors + 1;
        NoTest(loop, old(taken), 0);
        outcome := Refused;
        return;
      }
      var genvar := loop.init.value;
      genvarTmp := Value(genvar);
      var test := loop.test(genvar);
      if !test.Value? {
        errors := errors + 1;
        NoTest(loop, old(taken), 0);
        outcome := Refused;
        return;
      }
      var loopCount: nat := 1;
      while test.value != 0
        invariant 1 <= loopCount <= MAX_BODIES + 1 && k == loopCount - 1
        invariant AllRun(loop, old(taken), k)
        invariant Orbit(loop, k) == Value(genvar) && genvarTmp == Value(genvar)
        invariant test.Value? && test == loop.test(genvar)
        invariant |Prefix(loop, k)| == k && scopes == old(scopes) + Prefix(loop, k)
        invariant taken == old(taken) + Numbers(Prefix(loop, k))
        invariant errors == old(errors)
        decreases MAX_BODIES + 1 - loopCount
      {
        var number := Int32(genvar);
        if number in taken {
          errors := errors + 1;
          NameTaken(loop, old(taken), k, genvar);
          outcome := Refused;
          return;
        }
        scopes := scopes + [GenScope(number, genvar)];
        taken := taken + {number};
        PrefixNext(loop, k, genvar);
        NameFree(loop, old(taken), k, genvar);
        var step := loop.step(genvar);
        if !step.Value? || step.value == genvar {
          errors := errors + 1;
          NoStep(loop, old(taken), k);
          outcome := Refused;
          return;
        }
        NowRuns(loop, old(taken), k);
        k := k + 1;
        genvar := step.value;
        genvarTmp := Value(genvar);
        test := loop.test(genvar);
        if !test.Value? {
          NoTest(loop, old(taken), k);
          outcome := if test.NotConstant? then AssertionFailed else Refused;
          errors := if test.NotConstant? then errors else errors + 1;
          return;
        }
        if loopCount > MAX_BODIES {
          errors := errors + 1;
          TooMany(loop, old(taken), k);
          outcome := Refused;
          return;
        }
        loopCount := loopCount + 1;
      }
      genvarTmp := NotConstant;
      NowEnds(loop, old(taken), k);
      outcome := Done;
    }
  }

  /** The values before `k` run, but the one at `k` neither runs nor ends the loop. */
  lemma NotEnding(loop: Loop, taken: set<int>, k: nat)
    requires AllRun(loop, taken, k)
    requires !Runs(loop, taken, k)
    requires Orbit(loop, k).Value? ==> loop.test(Orbit(loop, k).value) != Value(0)
    ensures forall n: nat :: !EndsAfter(loop, taken, n)
  {
    forall n: nat ensures !EndsAfter(loop, taken, n) {
      if EndsAfter(loop, taken, n) {
        EndsOnce(loop, taken, k, n);
      }
    }
  }

  /** There is no value to test, or the test has none. */
  lemma NoTest(loop: Loop, taken: set<int>, k: nat)
    requires AllRun(loop, taken, k)
    requires Orbit(loop, k).Value? ==> !loop.test(Orbit(loop, k).value).Value?
    ensures !Starts(loop, taken, k) && !Runs(loop, taken, k) && !Completes(loop, taken)
    ensures k <= MAX_BODIES + 1 ==> Furthest(loop, taken, Prefix(loop, k))
  {
    hide EndsAfter, AllRun, Furthest;
    NotEnding(loop, taken, k);
    if k <= MAX_BODIES + 1 {
      StopsFurthest(loop, taken, k);
    }
  }

  /** The scope's name is taken. */
  lemma NameTaken(loop: Loop, taken: set<int>, k: nat, genvar: int)
    requires AllRun(loop, taken, k) && Orbit(loop, k) == Value(genvar)
    requires loop.test(genvar).Value? && loop.test(genvar).value != 0
    requires Int32(genvar) in taken + Numbers(Prefix(loop, k))
    ensures !Starts(loop, taken, k) && !Runs(loop, taken, k) && !Completes(loop, taken)
    ensures k <= MAX_BODIES ==> Furthest(loop, taken, Prefix(loop, k))
  {
    hide EndsAfter, AllRun, Int32, Same32, Numbers, Prefix, Furthest;
    NameIs(loop, taken, k, genvar);
    NotEnding(loop, taken, k);
    if k <= MAX_BODIES {
      StopsFurthest(loop, taken, k);
    }
  }

  /** The step has no value, or gives the same one again. */
  lemma NoStep(loop: Loop, taken: set<int>, k: nat)
    requires AllRun(loop, taken, k) && Starts(loop, taken, k)
    requires var g := Orbit(loop, k).value; loop.step(g).Value? ==> loop.step(g).value == g
    ensures !Runs(loop, taken, k) && !Completes(loop, taken)
    ensures k <= MAX_BODIES ==> Furthest(loop, taken, Prefix(loop, k + 1))
  {
    hide EndsAfter, AllRun, Int32, Same32, Furthest;
    NotEnding(loop, taken, k);
    if k <= MAX_BODIES {
      StopsFurthest(loop, taken, k);
    }
  }

  lemma TooMany(loop: Loop, taken: set<int>, k: nat)
    requires AllRun(loop, taken, k) && k > MAX_BODIES
    ensures !Completes(loop, taken)
    ensures k == MAX_BODIES + 1 ==> Furthest(loop, taken, Prefix(loop, k))
  {
    hide Furthest;
    if k == MAX_BODIES + 1 {
      StopsFurthest(loop, taken, k);
    }
    if Completes(loop, taken) {
      var n: nat :| n <= MAX_BODIES && EndsAfter(loop, taken, n);
      EndsOnce(loop, taken, k, n);
    }
  }

  lemma NowEnds(loop: Loop, taken: set<int>, k: nat)
    requires AllRun(loop, taken, k) && k <= MAX_BODIES
    requires Orbit(loop, k).Value? && loop.test(Orbit(loop, k).value) == Value(0)
    ensures EndsAfter(loop, taken, k) && Completes(loop, taken) && !Starts(loop, taken, k) && !Runs(loop, taken, k)
    ensures Furthest(loop, taken, Prefix(loop, k)) && Ended(loop, taken, Prefix(loop, k))
  {
    hide Furthest, Ended;
    assert EndsAfter(loop, taken, k);
    StopsFurthest(loop, taken, k);
    EndsScopes(loop, taken, k);
  }

  lemma EndsUniquely(loop: Loop, taken: set<int>, m: nat)
    requires EndsAfter(loop, taken, m)
    ensures forall n: nat | EndsAfter(loop, taken, n) :: n == m
  {
    forall n: nat | EndsAfter(loop, taken, n) ensures n == m {
      EndsOnce(loop, taken, m, n);
      EndsOnce(loop, taken, n, m);
    }
  }

  lemma NothingYet(loop: Loop, taken: set<int>)
    ensures Prefix(loop, 0) == [] && Numbers(Prefix(loop, 0)) == {} && AllRun(loop, taken, 0)
  {
  }

  lemma PrefixNext(loop: Loop, k: nat, genvar: int)
    requires Orbit(loop, k) == Value(genvar)
    ensures Prefix(loop, k + 1) == Prefix(loop, k) + [GenScope(Int32(genvar), genvar)]
    ensures Numbers(Prefix(loop, k + 1)) == Numbers(Prefix(loop, k)) + {Int32(genvar)}
  {
    var p, s := Prefix(loop, k), GenScope(Int32(genvar), genvar);
    assert forall t :: t in p + [s] <==> t in p || t == s;
    assert Numbers(p + [s]) == Numbers(p) + {s.number};
  }

  lemma NameIs(loop: Loop, taken: set<int>, k: nat, genvar: int)
    requires AllRun(loop, taken, k)
    ensures Int32(genvar) in taken + Numbers(Prefix(loop, k))
       <==> Int32(genvar) in taken || exists j: nat | j < k :: Same32(loop, j, genvar)
  {
    PrefixIs(loop, taken, k);
    var p := Prefix(loop, k);
    forall j: nat | j < k ensures Int32(Orbit(loop, j).value) in Numbers(p) {
      assert p[j] in p;
    }
    if Int32(genvar) in Numbers(p) {
      var s :| s in p && s.number == Int32(genvar);
      var j: nat :| j < |p| && p[j] == s;
      assert Same32(loop, j, genvar);
    }
  }

  lemma NameFree(loop: Loop, taken: set<int>, k: nat, genvar: int)
    requires AllRun(loop, taken, k) && Orbit(loop, k) == Value(genvar)
    requires loop.test(genvar).Value? && loop.test(genvar).value != 0
    requires Int32(genvar) !in taken + Numbers(Prefix(loop, k))
    ensures Starts(loop, taken, k)
  {
    hide AllRun, Int32, Same32, Numbers, Prefix;
    NameIs(loop, taken, k, genvar);
  }

  lemma NowRuns(loop: Loop, taken: set<int>, k: nat)
    requires AllRun(loop, taken, k) && Starts(loop, taken, k)
    requires var g := Orbit(loop, k).value; loop.step(g).Value? && loop.step(g).value != g
    ensures AllRun(loop, taken, k + 1)
    ensures Orbit(loop, k + 1) == loop.step(Orbit(loop, k).value)
  {
    hide Int32, Same32;
  }
}
