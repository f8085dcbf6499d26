/** Lossless widths are sound: at the width that `test_width` returns in an expanding mode,
    arithmetic modulo a power of two gives the exact integer. */
module LosslessWidths {
  import opened PowersOfTwo
  import opened WidthAnalysis

  /** The number that `bits` stands for in two's complement. */
  function AsSigned(bits: nat, width: nat): int
    requires width >= 1
  {
    if bits < Pow2(width - 1) then bits else bits - Pow2(width)
  }

  predicate Fits(x: int, width: nat, signed: bool) {
    if signed then width >= 1 && -Pow2(width - 1) <= x < Pow2(width - 1)
    else 0 <= x < Pow2(width)
  }

  /** The tree has one signedness throughout and only operators whose exact result the lossless
      width is meant to hold. */
  predicate Exactable(e: Expr, signed: bool) {
    match e
    case Unary(op, arg) => (op == Plus || (op == BitNot && signed)) && Exactable(arg, signed)
    case Binary(op, left, right) =>
      && (op == Add || op == Mul || (op == Sub && signed))
      && Exactable(left, signed) && Exactable(right, signed)
    case Ternary(_, tru, fal) => Exactable(tru, signed) && Exactable(fal, signed)
    case _ => e.signed == signed
  }

  predicate LeavesFit(e: Expr, signed: bool, values: nat -> int) {
    match e
    case Unary(_, arg) => LeavesFit(arg, signed, values)
    case Binary(_, left, right) => LeavesFit(left, signed, values) && LeavesFit(right, signed, values)
    case Ternary(_, tru, fal) => LeavesFit(tru, signed, values) && LeavesFit(fal, signed, values)
    case _ => Fits(values(e.id), OwnWidth(e), signed)
  }

  /** The value over the integers. */
  function Exact(e: Expr, signed: bool, values: nat -> int, picks: nat -> bool): int
    requires Exactable(e, signed)
  {
    match e
    case Unary(op, arg) =>
      var v := Exact(arg, signed, values, picks);
      if op == Plus then v else -v - 1
    case Binary(op, left, right) =>
      var l, r := Exact(left, signed, values, picks), Exact(right, signed, values, picks);
      if op == Add then l + r else if op == Sub then l - r else l * r
    case Ternary(cond, tru, fal) =>
      if picks(cond) then Exact(tru, signed, values, picks) else Exact(fal, signed, values, picks)
    case _ => values(e.id)
  }

  /** The bits that the tree evaluates to when every operand is extended to `width` bits and
      every operator wraps. */
  function EvalAt(e: Expr, signed: bool, width: nat, values: nat -> int, picks: nat -> bool): nat
    requires Exactable(e, signed)
  {
    match e
    case Unary(op, arg) =>
      var v := EvalAt(arg, signed, width, values, picks);
      if op == Plus then v else Wrap(Pow2(width) - 1 - v, width)
    case Binary(op, left, right) =>
      var l, r := EvalAt(left, signed, width, values, picks), EvalAt(right, signed, width, values, picks);
      Wrap(if op == Add then l + r else if op == Sub then l - r else l * r, width)
    case Ternary(cond, tru, fal) =>
      if picks(cond) then EvalAt(tru, signed, width, values, picks) else EvalAt(fal, signed, width, values, picks)
    case _ => Wrap(values(e.id), width)
  }

  predicate StandsFor(bits: nat, width: nat, signed: bool, x: int) {
    bits < Pow2(width) && if signed then width >= 1 && AsSigned(bits, width) == x else bits == x
  }

  /** A number fits if some bits of that width stand for it. */
  lemma FitsIff(x: int, width: nat, signed: bool)
    ensures Fits(x, width, signed) <==> exists bits :: StandsFor(bits, width, signed, x)
  {
    assert width >= 1 ==> Pow2(width) == 2 * Pow2(width - 1);
    if Fits(x, width, signed) {
      assert StandsFor(if x >= 0 then x else x + Pow2(width), width, signed, x);
    }
  }

  /** The leaves fit unless some leaf has a value that does not fit its own width. */
  lemma {:induction false} LeavesFitIff(e: Expr, signed: bool, values: nat -> int)
    ensures LeavesFit(e, signed, values)
      <==> !SomeLeaf(e, leaf => IsLeaf(leaf) && !Fits(values(leaf.id), OwnWidth(leaf), signed))
  {
    hide SomeLeaf;
    SomeLeafNode(e, leaf => IsLeaf(leaf) && !Fits(values(leaf.id), OwnWidth(leaf), signed));
    match e
    case Unary(_, arg) => LeavesFitIff(arg, signed, values);
    case Binary(_, left, right) =>
      LeavesFitIff(left, signed, values);
      LeavesFitIff(right, signed, values);
    case Ternary(_, tru, fal) =>
      LeavesFitIff(tru, signed, values);
      LeavesFitIff(fal, signed, values);
    case _ =>
  }

  // ----- which trees are meant

  predicate UnaryMeant(op: UnaryOp, signed: bool) {
    op == Plus || (signed && op == BitNot)
  }

  predicate BinaryMeant(op: BinaryOp, signed: bool) {
    op == Add || op == Mul || (signed && op == Sub)
  }

  ghost predicate MeantAt(e: Expr, signed: bool, at: Path) {
    NodeAt(e, at) ==>
      match NodeOf(e, at)
      case Unary(op, _) => UnaryMeant(op, signed)
      case Binary(op, _, _) => BinaryMeant(op, signed)
      case Ternary(_, _, _) => true
      case leaf => leaf.signed == signed
  }

  lemma MeantNode(e: Expr, signed: bool)
    ensures (forall at :: MeantAt(e, signed, at)) <==>
      match e
      case Unary(op, arg) => UnaryMeant(op, signed) && forall at :: MeantAt(arg, signed, at)
      case Binary(op, left, right) =>
        BinaryMeant(op, signed) && (forall at :: MeantAt(left, signed, at)) && forall at :: MeantAt(right, signed, at)
      case Ternary(_, tru, fal) => (forall at :: MeantAt(tru, signed, at)) && forall at :: MeantAt(fal, signed, at)
      case leaf => leaf.signed == signed
  {
    assert NodeOf(e, []) == e;
    if forall at :: MeantAt(e, signed, at) {
      assert MeantAt(e, signed, []);
      if !IsLeaf(e) {
        assert e.Binary? ==> Child(e, 0) == e.left && Child(e, 1) == e.right;
        assert e.Ternary? ==> Child(e, 0) == e.tru && Child(e, 1) == e.fal;
        assert e.Unary? ==> Child(e, 0) == e.arg;
        MeantBelow(e, signed, 0);
        if !e.Unary? {
          MeantBelow(e, signed, 1);
        }
      }
    } else {
      var at :| !MeantAt(e, signed, at);
      if at != [] {
        assert NodeAt(Child(e, at[0]), at[1..]) && !MeantAt(Child(e, at[0]), signed, at[1..]);
      }
    }
  }

  lemma MeantBelow(e: Expr, signed: bool, k: nat)
    requires !IsLeaf(e) && k <= 1 && (e.Unary? ==> k == 0) && forall at :: MeantAt(e, signed, at)
    ensures forall at :: MeantAt(Child(e, k), signed, at)
  {
    forall at ensures MeantAt(Child(e, k), signed, at) {
      if NodeAt(Child(e, k), at) {
        NodeBelow(e, k, at);
        assert MeantAt(e, signed, [k] + at);
      }
    }
  }

  /** The trees with leaves of one signedness, and no operators but + - * ~ and ternary over signed
      ones, + * and ternary over unsigned ones. */
  lemma {:induction false} ExactableIff(e: Expr, signed: bool)
    ensures Exactable(e, signed) <==> forall at :: MeantAt(e, signed, at)
  {
    hide MeantAt;
    MeantNode(e, signed);
    match e
    case Unary(_, arg) =>
      ExactableIff(arg, signed);
    case Binary(_, left, right) =>
      ExactableIff(left, signed);
      ExactableIff(right, signed);
    case Ternary(_, tru, fal) =>
      ExactableIff(tru, signed);
      ExactableIff(fal, signed);
    case _ =>
  }

  // ----- soundness

  /** At any width, wrapping once at the end is as good as wrapping at every operator. */
  lemma {:induction false} EvalWraps(e: Expr, signed: bool, width: nat, values: nat -> int, picks: nat -> bool)
    requires Exactable(e, signed)
    ensures EvalAt(e, signed, width, values, picks) == Wrap(Exact(e, signed, values, picks), width)
  {
    hide Wrap, Pow2;
    match e
    case Unary(op, arg) =>
      EvalWraps(arg, signed, width, values, picks);
      WrapNot(Exact(arg, signed, values, picks), width);
    case Binary(op, left, right) =>
      EvalWraps(left, signed, width, values, picks);
      EvalWraps(right, signed, width, values, picks);
      var l, r := Exact(left, signed, values, picks), Exact(right, signed, values, picks);
      WrapSum(l, r, width);
      WrapProduct(l, r, width);
    case Ternary(_, tru, fal) =>
      EvalWraps(tru, signed, width, values, picks);
      EvalWraps(fal, signed, width, values, picks);
    case _ =>
  }

  lemma FitsWider(x: int, width: nat, wider: nat, signed: bool)
    requires Fits(x, width, signed) && width <= wider
    ensures Fits(x, wider, signed)
  {
    Pow2Grows(width, wider);
    if signed {
      Pow2Grows(width - 1, wider - 1);
    }
  }

  lemma FitsSum(x: int, y: int, width: nat, signed: bool)
    requires Fits(x, width, signed) && Fits(y, width, signed)
    ensures Fits(x + y, width + 1, signed)
    ensures signed ==> Fits(x - y, width + 1, signed) && Fits(-x - 1, width, signed)
  {
    if signed {
      assert Pow2(width) == 2 * Pow2(width - 1);
    }
  }

  lemma FitsProduct(x: int, y: int, w1: nat, w2: nat, signed: bool)
    requires Fits(x, w1, signed) && Fits(y, w2, signed)
    ensures Fits(x * y, w1 + w2, signed)
  {
    if signed {
      assert Pow2(w1 + w2 - 1) == 2 * Pow2(w1 + w2 - 2);
      hide Pow2;
      var a, b := Pow2(w1 - 1), Pow2(w2 - 1);
      Pow2Sum(w1 - 1, w2 - 1);
      ProductBound(x, y, a, b);
    } else {
      hide Pow2;
      Pow2Sum(w1, w2);
      ProductBelow(x, y, Pow2(w1), Pow2(w2));
    }
  }

  /** The exact value fits in the lossless width. */
  lemma {:induction false} ExactFits(e: Expr, signed: bool, lossless: bool, intWidth: nat,
                                     values: nat -> int, picks: nat -> bool)
    requires Exactable(e, signed) && LeavesFit(e, signed, values)
    ensures Fits(Exact(e, signed, values, picks), TreeWidth(e, true, lossless, intWidth), signed)
  {
    hide Fits, Pow2;
    match e
    case Unary(op, arg) =>
      ExactFits(arg, signed, lossless, intWidth, values, picks);
      var v := Exact(arg, signed, values, picks);
      FitsSum(v, v, TreeWidth(arg, true, lossless, intWidth), signed);
    case Binary(op, left, right) =>
      ExactFits(left, signed, lossless, intWidth, values, picks);
      ExactFits(right, signed, lossless, intWidth, values, picks);
      var l, r := Exact(left, signed, values, picks), Exact(right, signed, values, picks);
      var lw, rw := TreeWidth(left, true, lossless, intWidth), TreeWidth(right, true, lossless, intWidth);
      FitsWider(l, lw, Max(lw, rw), signed);
      FitsWider(r, rw, Max(lw, rw), signed);
      FitsSum(l, r, Max(lw, rw), signed);
      FitsProduct(l, r, lw, rw, signed);
    case Ternary(cond, tru, fal) =>
      ExactFits(tru, signed, lossless, intWidth, values, picks);
      ExactFits(fal, signed, lossless, intWidth, values, picks);
      var chosen := if picks(cond) then tru else fal;
      FitsWider(Exact(chosen, signed, values, picks), TreeWidth(chosen, true, lossless, intWidth),
                TreeWidth(e, true, lossless, intWidth), signed);
    case _ =>
      FitsWider(values(e.id), OwnWidth(e), TreeWidth(e, true, lossless, intWidth), signed);
  }

  /** Bits that hold a number which fits stand for that number. */
  lemma WrapFits(x: int, width: nat, signed: bool)
    requires Fits(x, width, signed)
    ensures signed ==> AsSigned(Wrap(x, width), width) == x
    ensures !signed ==> Wrap(x, width) == x
  {
    var m := Pow2(width);
    if signed {
      assert m == 2 * Pow2(width - 1);
    }
    if x >= 0 {
      ModUnique(x, 0, x, m);
    } else {
      ModUnique(x, -1, x + m, m);
    }
  }

  /** At the width returned in a mode that expands, or at any greater one, evaluation modulo a
      power of two is exact. */
  lemma WidthIsLossless(e: Expr, signed: bool, mode: Mode, intWidth: nat, width: nat,
                        values: nat -> int, picks: nat -> bool)
    requires Exactable(e, signed) && LeavesFit(e, signed, values)
    requires FinalMode(e, mode, intWidth).Expands()
    requires width >= ModeWidth(e, FinalMode(e, mode, intWidth), intWidth)
    ensures signed ==>
      width >= 1 && AsSigned(EvalAt(e, signed, width, values, picks), width) == Exact(e, signed, values, picks)
    ensures !signed ==> EvalAt(e, signed, width, values, picks) == Exact(e, signed, values, picks)
  {
    var final := FinalMode(e, mode, intWidth);
    ExactFits(e, signed, final.Lossless(), intWidth, values, picks);
    FitsWider(Exact(e, signed, values, picks), ModeWidth(e, final, intWidth), width, signed);
    EvalWraps(e, signed, width, values, picks);
    WrapFits(Exact(e, signed, values, picks), width, signed);
  }

  /** The operators kept out lose the value: negating the least signed number, and subtracting
      unsigned ones, at the lossless width. */
  lemma OutsideTheClaim()
    ensures var e := Unary(Minus, Ident(0, 4, true));
      && ModeWidth(e, LOSSLESS, 32) == 4 && Fits(-8, 4, true)
      && AsSigned(Wrap(-(-8), 4), 4) != -(-8)
    ensures var e := Binary(Sub, Ident(0, 4, false), Ident(1, 4, false));
      && ModeWidth(e, LOSSLESS, 32) == 5
      && Fits(0, 4, false) && Fits(1, 4, false) && Wrap(0 - 1, 5) != 0 - 1
  {
    assert Pow2(4) == 2 * Pow2(3) == 4 * Pow2(2) == 8 * Pow2(1) == 16;
  }
}
