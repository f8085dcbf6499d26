/** Expression width analysis: `test_width` threads a mode through an expression tree and
    tests an operand again when its sibling raises the mode to lossless. */
module WidthAnalysis {

  datatype Mode = SIZED | UNSIZED | EXPAND | LOSSLESS | UPSIZE {
    predicate Expands() {
      EXPAND? || LOSSLESS? || UPSIZE?
    }

    predicate Lossless() {
      LOSSLESS? || UPSIZE?
    }
  }

  datatype UnaryOp = Plus | Minus | BitNot
  datatype BinaryOp = Add | Sub | Mul | Div | Mod | Bitwise | MinMax

  /** `id` names the value that a leaf, or the condition of a ternary, takes at run time. */
  datatype Expr =
    | Number(id: nat, len: nat, hasLen: bool, isSingle: bool, signed: bool)
    | Ident(id: nat, width: nat, signed: bool)
    | Param(id: nat, width: nat, hasWidth: bool, signed: bool)
    | Unary(op: UnaryOp, arg: Expr)
    | Binary(bop: BinaryOp, left: Expr, right: Expr)
    | Ternary(cond: nat, tru: Expr, fal: Expr)

  const UINT_MAX: nat := 0xFFFF_FFFF

  function Max(a: nat, b: nat): nat {
    if a > b then a else b
  }

  predicate IsLeaf(e: Expr) {
    e.Number? || e.Ident? || e.Param?
  }

  // ----- the two-phase specification

  predicate Unsized(e: Expr) {
    e.Number? && !e.hasLen && !e.isSingle
  }

  /** Some leaf forces lossless widths: an unsized parameter, or an unsized literal at least
      as long as an integer. */
  predicate Triggers(e: Expr, intWidth: nat) {
    match e
    case Number(_, len, _, _, _) => Unsized(e) && len >= intWidth
    case Ident(_, _, _) => false
    case Param(_, _, hasWidth, _) => !hasWidth
    case Unary(_, arg) => Triggers(arg, intWidth)
    case Binary(_, left, right) => Triggers(left, intWidth) || Triggers(right, intWidth)
    case Ternary(_, tru, fal) => Triggers(tru, intWidth) || Triggers(fal, intWidth)
  }

  /** Some leaf is an unsized literal shorter than an integer. */
  predicate HasShort(e: Expr, intWidth: nat) {
    match e
    case Number(_, len, _, _, _) => Unsized(e) && len < intWidth
    case Ident(_, _, _) => false
    case Param(_, _, _, _) => false
    case Unary(_, arg) => HasShort(arg, intWidth)
    case Binary(_, left, right) => HasShort(left, intWidth) || HasShort(right, intWidth)
    case Ternary(_, tru, fal) => HasShort(tru, intWidth) || HasShort(fal, intWidth)
  }

  predicate HasSign(e: Expr) {
    match e
    case Unary(_, arg) => HasSign(arg)
    case Binary(_, left, right) => HasSign(left) && HasSign(right)
    case Ternary(_, tru, fal) => HasSign(tru) && HasSign(fal)
    case _ => e.signed
  }

  /** Some operator coerces an operand to the other signedness. */
  predicate Mixed(e: Expr) {
    match e
    case Unary(_, arg) => Mixed(arg)
    case Binary(_, left, right) => Mixed(left) || Mixed(right) || HasSign(left) != HasSign(right)
    case Ternary(_, tru, fal) => Mixed(tru) || Mixed(fal) || HasSign(tru) != HasSign(fal)
    case _ => false
  }

  /** Phase one: the mode that the whole tree ends up in. */
  function FinalMode(e: Expr, mode: Mode, intWidth: nat): Mode {
    if mode.Lossless() || Triggers(e, intWidth) then
      if mode.UPSIZE? || Mixed(e) then UPSIZE else LOSSLESS
    else if mode.SIZED? && HasShort(e, intWidth) then UNSIZED
    else mode
  }

  /** `b` is `a` with the operands of some binary operators and ternaries exchanged. */
  predicate Reordered(a: Expr, b: Expr) {
    match a
    case Unary(op, arg) => b.Unary? && b.op == op && Reordered(arg, b.arg)
    case Binary(op, left, right) =>
      && b.Binary? && b.bop == op
      && (   (Reordered(left, b.left) && Reordered(right, b.right))
          || (Reordered(left, b.right) && Reordered(right, b.left)))
    case Ternary(cond, tru, fal) =>
      && b.Ternary? && b.cond == cond
      && (   (Reordered(tru, b.tru) && Reordered(fal, b.fal))
          || (Reordered(tru, b.fal) && Reordered(fal, b.tru)))
    case _ => a == b
  }

  /** The order of operands matters neither for the mode nor for the width, although only one
      operand of each pair is ever tested again. */
  lemma {:induction false} OrderIrrelevant(a: Expr, b: Expr, mode: Mode, intWidth: nat)
    requires Reordered(a, b)
    ensures FinalMode(a, mode, intWidth) == FinalMode(b, mode, intWidth)
    ensures ModeWidth(a, FinalMode(a, mode, intWidth), intWidth) == ModeWidth(b, FinalMode(b, mode, intWidth), intWidth)
  {
    SameParts(a, b, intWidth);
    SameWidth(a, b, FinalMode(a, mode, intWidth), intWidth);
  }

  lemma {:induction false} SameParts(a: Expr, b: Expr, intWidth: nat)
    requires Reordered(a, b)
    ensures Triggers(a, intWidth) == Triggers(b, intWidth) && HasShort(a, intWidth) == HasShort(b, intWidth)
    ensures HasSign(a) == HasSign(b) && Mixed(a) == Mixed(b)
  {
    match a
    case Unary(_, arg) =>
      SameParts(arg, b.arg, intWidth);
    case Binary(_, left, right) =>
      if Reordered(left, b.left) && Reordered(right, b.right) {
        SameParts(left, b.left, intWidth);
        SameParts(right, b.right, intWidth);
      } else {
        SameParts(left, b.right, intWidth);
        SameParts(right, b.left, intWidth);
      }
    case Ternary(_, tru, fal) =>
      if Reordered(tru, b.tru) && Reordered(fal, b.fal) {
        SameParts(tru, b.tru, intWidth);
        SameParts(fal, b.fal, intWidth);
      } else {
        SameParts(tru, b.fal, intWidth);
        SameParts(fal, b.tru, intWidth);
      }
    case _ =>
  }

  lemma MaxCommutes()
    ensures forall x, y :: Max(x, y) == Max(y, x)
  {
  }

  lemma {:induction false} SameWidth(a: Expr, b: Expr, mode: Mode, intWidth: nat)
    requires Reordered(a, b)
    ensures ModeWidth(a, mode, intWidth) == ModeWidth(b, mode, intWidth)
  {
    hide Max;
    MaxCommutes();
    match a
    case Unary(_, arg) =>
      SameWidth(arg, b.arg, mode, intWidth);
    case Binary(_, left, right) =>
      if Reordered(left, b.left) && Reordered(right, b.right) {
        SameWidth(left, b.left, mode, intWidth);
        SameWidth(right, b.right, mode, intWidth);
      } else {
        SameWidth(left, b.right, mode, intWidth);
        SameWidth(right, b.left, mode, intWidth);
      }
    case Ternary(_, tru, fal) =>
      if Reordered(tru, b.tru) && Reordered(fal, b.fal) {
        SameWidth(tru, b.tru, mode, intWidth);
        SameWidth(fal, b.fal, mode, intWidth);
      } else {
        SameWidth(tru, b.fal, mode, intWidth);
        SameWidth(fal, b.tru, mode, intWidth);
      }
    case _ =>
  }

  function Combine(op: BinaryOp, l: nat, r: nat, expand: bool): nat {
    match op
    case Add => Max(l, r) + if expand then 1 else 0
    case Sub => Max(l, r) + if expand then 1 else 0
    case Mul => if expand then l + r else Max(l, r)
    case _ => Max(l, r)
  }

  /** Phase two: the width, bottom up, in a final mode that expands or is lossless. */
  function TreeWidth(e: Expr, expand: bool, lossless: bool, intWidth: nat): nat {
    match e
    case Number(_, len, _, _, _) => if Unsized(e) && len < intWidth && !lossless then intWidth else len
    case Ident(_, width, _) => width
    case Param(_, width, _, _) => width
    case Unary(_, arg) => TreeWidth(arg, expand, lossless, intWidth)
    case Binary(op, left, right) =>
      Combine(op, TreeWidth(left, expand, lossless, intWidth), TreeWidth(right, expand, lossless, intWidth), expand)
    case Ternary(_, tru, fal) =>
      Max(TreeWidth(tru, expand, lossless, intWidth), TreeWidth(fal, expand, lossless, intWidth))
  }

  function ModeWidth(e: Expr, mode: Mode, intWidth: nat): nat {
    TreeWidth(e, mode.Expands(), mode.Lossless(), intWidth)
  }

  /** The width below which the expression must not be pruned; a division never is pruned. */
  function MinWidth(e: Expr): nat {
    match e
    case Number(_, len, _, _, _) => len
    case Ident(_, width, _) => width
    case Param(_, width, _, _) => width
    case Unary(_, arg) => MinWidth(arg)
    case Binary(op, left, right) =>
      if op == Div || op == Mod then UINT_MAX else Max(MinWidth(left), MinWidth(right))
    case Ternary(_, tru, fal) => Max(MinWidth(tru), MinWidth(fal))
  }

  // ----- the pass itself

  /** A node of the tree: the way from the root, 0 for the left, true or only operand and 1
      for the right or false one. */
  type Path = seq<nat>

  // ----- a reference: mode and width from the leaves

  /** There is a node at the end of the way. */
  predicate NodeAt(e: Expr, at: Path) {
    at == [] ||
    match e
    case Unary(_, arg) => at[0] == 0 && NodeAt(arg, at[1..])
    case Binary(_, left, right) => (at[0] == 0 && NodeAt(left, at[1..])) || (at[0] == 1 && NodeAt(right, at[1..]))
    case Ternary(_, tru, fal) => (at[0] == 0 && NodeAt(tru, at[1..])) || (at[0] == 1 && NodeAt(fal, at[1..]))
    case _ => false
  }

  function NodeOf(e: Expr, at: Path): Expr
    requires NodeAt(e, at)
  {
    if at == [] then e else NodeOf(Child(e, at[0]), at[1..])
  }

  function Child(e: Expr, k: nat): Expr
    requires !IsLeaf(e) && k <= 1 && (e.Unary? ==> k == 0)
  {
    match e
    case Unary(_, arg) => arg
    case Binary(_, left, right) => if k == 0 then left else right
    case Ternary(_, tru, fal) => if k == 0 then tru else fal
  }

  predicate LeafOf(e: Expr, at: Path) {
    NodeAt(e, at) && (NodeOf(e, at).Number? || NodeOf(e, at).Ident? || NodeOf(e, at).Param?)
  }

  ghost predicate SomeLeaf(e: Expr, test: Expr -> bool) {
    exists at :: LeafOf(e, at) && test(NodeOf(e, at))
  }

  /** An unsized parameter, or an unsized literal that is not shorter than an integer. */
  predicate Forcing(leaf: Expr, intWidth: nat) {
    (leaf.Param? && !leaf.hasWidth) || (leaf.Number? && !leaf.hasLen && !leaf.isSingle && leaf.len >= intWidth)
  }

  predicate Short(leaf: Expr, intWidth: nat) {
    leaf.Number? && !leaf.hasLen && !leaf.isSingle && leaf.len < intWidth
  }

  function OwnWidth(leaf: Expr): nat
    requires IsLeaf(leaf)
  {
    if leaf.Number? then leaf.len else leaf.width
  }

  /** The width of a leaf, a short unsized literal counting as an integer. */
  function Counted(leaf: Expr, intWidth: nat): nat
    requires IsLeaf(leaf)
  {
    if Short(leaf, intWidth) then intWidth else OwnWidth(leaf)
  }

  ghost predicate AnyForcing(e: Expr, intWidth: nat) {
    SomeLeaf(e, leaf => Forcing(leaf, intWidth))
  }

  ghost predicate AnyShort(e: Expr, intWidth: nat) {
    SomeLeaf(e, leaf => Short(leaf, intWidth))
  }

  ghost predicate AllSigned(e: Expr) {
    !SomeLeaf(e, leaf => IsLeaf(leaf) && !leaf.signed)
  }

  /** Some operator has one operand with signed leaves only, and one with an unsigned leaf. */
  ghost predicate MixesSigns(e: Expr) {
    exists at :: NodeAt(e, at) && (NodeOf(e, at).Binary? || NodeOf(e, at).Ternary?)
      && AllSigned(Child(NodeOf(e, at), 0)) != AllSigned(Child(NodeOf(e, at), 1))
  }

  /** `w` is the greatest width of a leaf. */
  ghost predicate GreatestLeaf(e: Expr, w: nat, intWidth: nat) {
    && SomeLeaf(e, leaf => IsLeaf(leaf) && Counted(leaf, intWidth) == w)
    && !SomeLeaf(e, leaf => IsLeaf(leaf) && Counted(leaf, intWidth) > w)
  }

  /** Going down from the root, into both operands of a product and into one operand of anything
      else, the widths of the leaves reached and one bit for each sum on the way add up to `w`. */
  ghost predicate AddsUp(e: Expr, w: nat, lossless: bool, intWidth: nat) {
    match e
    case Unary(_, arg) => AddsUp(arg, w, lossless, intWidth)
    case Binary(op, left, right) =>
      if op == Mul then
        exists l: nat, r: nat ::
          w == l + r && AddsUp(left, l, lossless, intWidth) && AddsUp(right, r, lossless, intWidth)
      else
        var carry := if op == Add || op == Sub then 1 else 0;
        w >= carry && (AddsUp(left, w - carry, lossless, intWidth) || AddsUp(right, w - carry, lossless, intWidth))
    case Ternary(_, tru, fal) => AddsUp(tru, w, lossless, intWidth) || AddsUp(fal, w, lossless, intWidth)
    case _ => w == if lossless then OwnWidth(e) else Counted(e, intWidth)
  }

  /** `w` is the greatest sum that is reached so. */
  ghost predicate GreatestSum(e: Expr, w: nat, lossless: bool, intWidth: nat) {
    AddsUp(e, w, lossless, intWidth) && forall x: nat | AddsUp(e, x, lossless, intWidth) :: x <= w
  }

  ghost predicate Divides(e: Expr) {
    exists at :: NodeAt(e, at) && NodeOf(e, at).Binary? && (NodeOf(e, at).bop == Div || NodeOf(e, at).bop == Mod)
  }

  /** `w` is the greatest width of a leaf as it is written. */
  ghost predicate GreatestOwn(e: Expr, w: nat) {
    && SomeLeaf(e, leaf => IsLeaf(leaf) && OwnWidth(leaf) == w)
    && !SomeLeaf(e, leaf => IsLeaf(leaf) && OwnWidth(leaf) > w)
  }

  lemma NodeBelow(e: Expr, k: nat, at: Path)
    requires !IsLeaf(e) && k <= 1 && (e.Unary? ==> k == 0) && NodeAt(Child(e, k), at)
    ensures NodeAt(e, [k] + at) && NodeOf(e, [k] + at) == NodeOf(Child(e, k), at)
  {
    assert ([k] + at)[1..] == at;
  }

  lemma SomeLeafNode(e: Expr, test: Expr -> bool)
    ensures IsLeaf(e) ==> (SomeLeaf(e, test) <==> test(e))
    ensures e.Unary? ==> (SomeLeaf(e, test) <==> SomeLeaf(e.arg, test))
    ensures e.Binary? || e.Ternary? ==>
      (SomeLeaf(e, test) <==> SomeLeaf(Child(e, 0), test) || SomeLeaf(Child(e, 1), test))
  {
    if IsLeaf(e) {
      assert LeafOf(e, []) && NodeOf(e, []) == e;
    } else {
      if at :| LeafOf(e, at) && test(NodeOf(e, at)) {
        assert at != [] && LeafOf(Child(e, at[0]), at[1..]);
      }
      SomeLeafBelow(e, 0, test);
      if !e.Unary? {
        SomeLeafBelow(e, 1, test);
      }
    }
  }

  lemma SomeLeafBelow(e: Expr, k: nat, test: Expr -> bool)
    requires !IsLeaf(e) && k <= 1 && (e.Unary? ==> k == 0)
    ensures SomeLeaf(Child(e, k), test) ==> SomeLeaf(e, test)
  {
    if at :| LeafOf(Child(e, k), at) && test(NodeOf(Child(e, k), at)) {
      NodeBelow(e, k, at);
      assert LeafOf(e, [k] + at);
    }
  }

  lemma {:induction false} LeavesIff(e: Expr, intWidth: nat)
    ensures Triggers(e, intWidth) <==> AnyForcing(e, intWidth)
    ensures HasShort(e, intWidth) <==> AnyShort(e, intWidth)
    ensures HasSign(e) <==> AllSigned(e)
  {
    hide SomeLeaf;
    SomeLeafNode(e, leaf => Forcing(leaf, intWidth));
    SomeLeafNode(e, leaf => Short(leaf, intWidth));
    SomeLeafNode(e, leaf => IsLeaf(leaf) && !leaf.signed);
    match e
    case Unary(_, arg) =>
      LeavesIff(arg, intWidth);
    case Binary(_, left, right) =>
      LeavesIff(left, intWidth);
      LeavesIff(right, intWidth);
    case Ternary(_, tru, fal) =>
      LeavesIff(tru, intWidth);
      LeavesIff(fal, intWidth);
    case _ =>
  }

  lemma MixesNode(e: Expr)
    ensures MixesSigns(e) <==>
      match e
      case Unary(_, arg) => MixesSigns(arg)
      case Binary(_, left, right) => MixesSigns(left) || MixesSigns(right) || AllSigned(left) != AllSigned(right)
      case Ternary(_, tru, fal) => MixesSigns(tru) || MixesSigns(fal) || AllSigned(tru) != AllSigned(fal)
      case _ => false
  {
    hide AllSigned;
    assert NodeOf(e, []) == e;
    if at :| NodeAt(e, at) && (NodeOf(e, at).Binary? || NodeOf(e, at).Ternary?)
             && AllSigned(Child(NodeOf(e, at), 0)) != AllSigned(Child(NodeOf(e, at), 1)) {
      if at != [] {
        assert NodeAt(Child(e, at[0]), at[1..]) && MixesSigns(Child(e, at[0]));
      }
    }
    if !IsLeaf(e) {
      forall k: nat | k <= 1 && (e.Unary? ==> k == 0) && MixesSigns(Child(e, k)) ensures MixesSigns(e) {
        var at :| NodeAt(Child(e, k), at) && (NodeOf(Child(e, k), at).Binary? || NodeOf(Child(e, k), at).Ternary?)
          && AllSigned(Child(NodeOf(Child(e, k), at), 0)) != AllSigned(Child(NodeOf(Child(e, k), at), 1));
        NodeBelow(e, k, at);
      }
    }
  }

  lemma {:induction false} MixedIff(e: Expr)
    ensures Mixed(e) <==> MixesSigns(e)
  {
    hide MixesSigns, AllSigned;
    MixesNode(e);
    match e
    case Unary(_, arg) =>
      MixedIff(arg);
    case Binary(_, left, right) =>
      MixedIff(left);
      MixedIff(right);
      LeavesIff(left, 0);
      LeavesIff(right, 0);
    case Ternary(_, tru, fal) =>
      MixedIff(tru);
      MixedIff(fal);
      LeavesIff(tru, 0);
      LeavesIff(fal, 0);
    case _ =>
  }

  /** Without growth, the width is that of the widest leaf. */
  lemma {:induction false} WidestLeaf(e: Expr, intWidth: nat)
    ensures GreatestLeaf(e, TreeWidth(e, false, false, intWidth), intWidth)
  {
    var w := TreeWidth(e, false, false, intWidth);
    match e
    case Unary(_, arg) =>
      WidestLeaf(arg, intWidth);
      WidestOf(e, arg, arg, w, w, w, intWidth);
    case Binary(_, left, right) =>
      WidestLeaf(left, intWidth);
      WidestLeaf(right, intWidth);
      WidestOf(e, left, right, TreeWidth(left, false, false, intWidth), TreeWidth(right, false, false, intWidth), w,
               intWidth);
    case Ternary(_, tru, fal) =>
      WidestLeaf(tru, intWidth);
      WidestLeaf(fal, intWidth);
      WidestOf(e, tru, fal, TreeWidth(tru, false, false, intWidth), TreeWidth(fal, false, false, intWidth), w,
               intWidth);
    case _ =>
      SomeLeafNode(e, leaf => IsLeaf(leaf) && Counted(leaf, intWidth) == w);
      SomeLeafNode(e, leaf => IsLeaf(leaf) && Counted(leaf, intWidth) > w);
  }

  lemma WidestOf(e: Expr, a: Expr, b: Expr, wa: nat, wb: nat, w: nat, intWidth: nat)
    requires !IsLeaf(e) && a == Child(e, 0) && b == Child(e, if e.Unary? then 0 else 1)
    requires GreatestLeaf(a, wa, intWidth) && GreatestLeaf(b, wb, intWidth) && w == if wa > wb then wa else wb
    ensures GreatestLeaf(e, w, intWidth)
  {
    SomeLeafNode(e, leaf => IsLeaf(leaf) && Counted(leaf, intWidth) == w);
    SomeLeafNode(e, leaf => IsLeaf(leaf) && Counted(leaf, intWidth) > w);
  }

  /** With growth, the width is the greatest sum. */
  lemma {:induction false} WidestSum(e: Expr, lossless: bool, intWidth: nat)
    ensures GreatestSum(e, TreeWidth(e, true, lossless, intWidth), lossless, intWidth)
  {
    match e
    case Unary(_, arg) =>
      WidestSum(arg, lossless, intWidth);
    case Binary(op, left, right) =>
      WidestSum(left, lossless, intWidth);
      WidestSum(right, lossless, intWidth);
      if op == Mul {
        var l, r := TreeWidth(left, true, lossless, intWidth), TreeWidth(right, true, lossless, intWidth);
        assert AddsUp(left, l, lossless, intWidth) && AddsUp(right, r, lossless, intWidth);
      }
    case Ternary(_, tru, fal) =>
      WidestSum(tru, lossless, intWidth);
      WidestSum(fal, lossless, intWidth);
    case _ =>
  }

  datatype Info = Info(width: nat, minWidth: nat, signed: bool)

  lemma DividesNode(e: Expr)
    ensures Divides(e) <==>
      match e
      case Unary(_, arg) => Divides(arg)
      case Binary(op, left, right) => op == Div || op == Mod || Divides(left) || Divides(right)
      case Ternary(_, tru, fal) => Divides(tru) || Divides(fal)
      case _ => false
  {
    assert NodeOf(e, []) == e;
    if at :| NodeAt(e, at) && NodeOf(e, at).Binary? && (NodeOf(e, at).bop == Div || NodeOf(e, at).bop == Mod) {
      if at != [] {
        assert NodeAt(Child(e, at[0]), at[1..]) && Divides(Child(e, at[0]));
      }
    }
    if !IsLeaf(e) {
      DividesBelow(e, 0);
      if !e.Unary? {
        DividesBelow(e, 1);
      }
    }
  }

  lemma DividesBelow(e: Expr, k: nat)
    requires !IsLeaf(e) && k <= 1 && (e.Unary? ==> k == 0)
    ensures Divides(Child(e, k)) ==> Divides(e)
  {
    if at :| NodeAt(Child(e, k), at) && NodeOf(Child(e, k), at).Binary?
             && (NodeOf(Child(e, k), at).bop == Div || NodeOf(Child(e, k), at).bop == Mod) {
      NodeBelow(e, k, at);
    }
  }

  /** The width to keep is that of the widest leaf, and out of reach of pruning if anything is
      divided. */
  lemma {:induction false} WidestOwn(e: Expr)
    ensures Divides(e) ==> MinWidth(e) >= UINT_MAX
    ensures !Divides(e) ==> GreatestOwn(e, MinWidth(e))
  {
    hide Divides, GreatestOwn, Max;
    var w := MinWidth(e);
    DividesNode(e);
    match e
    case Unary(_, arg) =>
      WidestOwn(arg);
      OwnOf(e, arg, arg, MinWidth(arg), MinWidth(arg));
      MaxIs(MinWidth(arg), MinWidth(arg));
    case Binary(_, left, right) =>
      WidestOwn(left);
      WidestOwn(right);
      OwnOf(e, left, right, MinWidth(left), MinWidth(right));
      MaxIs(MinWidth(left), MinWidth(right));
    case Ternary(_, tru, fal) =>
      WidestOwn(tru);
      WidestOwn(fal);
      OwnOf(e, tru, fal, MinWidth(tru), MinWidth(fal));
      MaxIs(MinWidth(tru), MinWidth(fal));
    case _ =>
      LeafOwn(e);
  }

  lemma MaxIs(a: nat, b: nat)
    ensures Max(a, b) == if a > b then a else b
  {
  }

  lemma LeafOwn(e: Expr)
    requires IsLeaf(e)
    ensures GreatestOwn(e, MinWidth(e))
  {
    SomeLeafNode(e, leaf => IsLeaf(leaf) && OwnWidth(leaf) == MinWidth(e));
    SomeLeafNode(e, leaf => IsLeaf(leaf) && OwnWidth(leaf) > MinWidth(e));
  }

  lemma OwnOf(e: Expr, a: Expr, b: Expr, wa: nat, wb: nat)
    requires !IsLeaf(e) && a == Child(e, 0) && b == Child(e, if e.Unary? then 0 else 1)
    ensures GreatestOwn(a, wa) && GreatestOwn(b, wb) ==> GreatestOwn(e, if wa > wb then wa else wb)
  {
    var w := if wa > wb then wa else wb;
    SomeLeafNode(e, leaf => IsLeaf(leaf) && OwnWidth(leaf) == w);
    SomeLeafNode(e, leaf => IsLeaf(leaf) && OwnWidth(leaf) > w);
  }

  /** `w` is the width of the expression when the whole tree is left in mode `mode`. */
  ghost predicate Widest(e: Expr, w: nat, mode: Mode, intWidth: nat) {
    if mode.SIZED? || mode.UNSIZED? then GreatestLeaf(e, w, intWidth) else GreatestSum(e, w, !mode.EXPAND?, intWidth)
  }

  /** The attributes stored at a node. */
  ghost predicate Attributes(e: Expr, mode: Mode, own: Info, intWidth: nat) {
    && (own.signed <==> AllSigned(e))
    && (if Divides(e) then own.minWidth >= UINT_MAX else GreatestOwn(e, own.minWidth))
    && exists w: nat :: Widest(e, w, mode, intWidth)
         && (own.width == w || (mode.UPSIZE? && !IsLeaf(e) && w < intWidth == own.width))
  }

  /** What the pass says of an expression is what its leaves and operators say: `mode` is the mode
      on leaving it, `width` its width. */
  ghost predicate Accounted(e: Expr, mode0: Mode, mode: Mode, width: nat, intWidth: nat) {
    && (mode.LOSSLESS? || mode.UPSIZE? <==> mode0.LOSSLESS? || mode0.UPSIZE? || AnyForcing(e, intWidth))
    && (mode.UPSIZE? <==> mode0.UPSIZE? || (MixesSigns(e) && (mode0.LOSSLESS? || AnyForcing(e, intWidth))))
    && (mode.EXPAND? <==> mode0.EXPAND? && !AnyForcing(e, intWidth))
    && (mode.UNSIZED? <==> (mode0.UNSIZED? || (mode0.SIZED? && AnyShort(e, intWidth))) && !AnyForcing(e, intWidth))
    && Widest(e, width, mode, intWidth)
  }

  lemma Accounting(e: Expr, mode0: Mode, mode: Mode, intWidth: nat)
    requires mode == FinalMode(e, mode0, intWidth)
    ensures Accounted(e, mode0, mode, ModeWidth(e, mode, intWidth), intWidth)
  {
    hide Triggers, HasShort, Mixed, TreeWidth, AnyForcing, AnyShort, MixesSigns, GreatestLeaf, GreatestSum;
    LeavesIff(e, intWidth);
    MixedIff(e);
    WidestIs(e, mode, intWidth);
  }

  lemma WidestIs(e: Expr, mode: Mode, intWidth: nat)
    ensures Widest(e, ModeWidth(e, mode, intWidth), mode, intWidth)
  {
    hide TreeWidth, GreatestLeaf, GreatestSum;
    WidestLeaf(e, intWidth);
    WidestSum(e, mode.Lossless(), intWidth);
  }

  predicate LeafAt(e: Expr, at: Path) {
    if at == [] then IsLeaf(e)
    else
      match e
      case Unary(_, arg) => at[0] == 0 && LeafAt(arg, at[1..])
      case Binary(_, left, right) => (at[0] == 0 && LeafAt(left, at[1..])) || (at[0] == 1 && LeafAt(right, at[1..]))
      case Ternary(_, tru, fal) => (at[0] == 0 && LeafAt(tru, at[1..])) || (at[0] == 1 && LeafAt(fal, at[1..]))
      case _ => false
  }

  /** The attributes stored at a node: the tree width, or an integer's width if the node was
      last tested in mode UPSIZE and is narrower. */
  ghost predicate RecordedAt(info: map<Path, Info>, e: Expr, path: Path, mode: Mode, intWidth: nat) {
    && path in info
    && info[path].minWidth == MinWidth(e)
    && info[path].signed == HasSign(e)
    && var width := ModeWidth(e, mode, intWidth);
       info[path].width == width || (mode == UPSIZE && !IsLeaf(e) && width < intWidth == info[path].width)
  }

  /** Every node of the tree has the attributes of the final mode. */
  ghost predicate Recorded(info: map<Path, Info>, e: Expr, path: Path, mode: Mode, intWidth: nat) {
    && RecordedAt(info, e, path, mode, intWidth)
    && match e
       case Unary(_, arg) => Recorded(info, arg, path + [0], mode, intWidth)
       case Binary(_, left, right) =>
         Recorded(info, left, path + [0], mode, intWidth) && Recorded(info, right, path + [1], mode, intWidth)
       case Ternary(_, tru, fal) =>
         Recorded(info, tru, path + [0], mode, intWidth) && Recorded(info, fal, path + [1], mode, intWidth)
       case _ => true
  }

  /** `p` is in the subtree at `path`. */
  predicate Below(path: Path, p: Path) {
    path <= p
  }

  ghost predicate SameOutside<T(!new)>(a: map<Path, T>, b: map<Path, T>, path: Path) {
    forall p: Path | !Below(path, p) :: (p in a <==> p in b) && (p in a ==> a[p] == b[p])
  }

  ghost predicate SameInside<T(!new)>(a: map<Path, T>, b: map<Path, T>, path: Path) {
    forall p: Path | Below(path, p) :: (p in a <==> p in b) && (p in a ==> a[p] == b[p])
  }

  lemma BelowChildren(path: Path)
    ensures forall p: Path | Below(path + [0], p) :: Below(path, p) && !Below(path + [1], p) && p != path
    ensures forall p: Path | Below(path + [1], p) :: Below(path, p) && !Below(path + [0], p) && p != path
  {
    forall p: Path | Below(path + [0], p) || Below(path + [1], p) ensures Below(path, p) {
      assert p[..|path|] == path;
    }
    forall p: Path | Below(path + [0], p) ensures !Below(path + [1], p) {
      assert p[|path|] == (path + [0])[|path|];
    }
  }

  lemma {:induction false} RecordedFrame(a: map<Path, Info>, b: map<Path, Info>, e: Expr, path: Path, mode: Mode,
                                         intWidth: nat)
    requires Recorded(a, e, path, mode, intWidth) && SameInside(a, b, path)
    ensures Recorded(b, e, path, mode, intWidth)
  {
    assert Below(path, path);
    BelowChildren(path);
    match e
    case Unary(_, arg) =>
      RecordedFrame(a, b, arg, path + [0], mode, intWidth);
    case Binary(_, left, right) =>
      RecordedFrame(a, b, left, path + [0], mode, intWidth);
      RecordedFrame(a, b, right, path + [1], mode, intWidth);
    case Ternary(_, tru, fal) =>
      RecordedFrame(a, b, tru, path + [0], mode, intWidth);
      RecordedFrame(a, b, fal, path + [1], mode, intWidth);
    case _ =>
  }

  /** A later mode of the same kind leaves the records valid. */
  lemma {:induction false} RecordedRaised(info: map<Path, Info>, e: Expr, path: Path, mode: Mode, mode': Mode,
                                          intWidth: nat)
    requires Recorded(info, e, path, mode, intWidth)
    requires mode'.Expands() == mode.Expands() && mode'.Lossless() == mode.Lossless()
    requires mode.UPSIZE? ==> mode'.UPSIZE?
    ensures Recorded(info, e, path, mode', intWidth)
  {
    match e
    case Unary(_, arg) =>
      RecordedRaised(info, arg, path + [0], mode, mode', intWidth);
    case Binary(_, left, right) =>
      RecordedRaised(info, left, path + [0], mode, mode', intWidth);
      RecordedRaised(info, right, path + [1], mode, mode', intWidth);
    case Ternary(_, tru, fal) =>
      RecordedRaised(info, tru, path + [0], mode, mode', intWidth);
      RecordedRaised(info, fal, path + [1], mode, mode', intWidth);
    case _ =>
  }

  function Count(tests: map<Path, nat>, p: Path): nat {
    if p in tests then tests[p] else 0
  }

  /** Every leaf of the tree has been tested at least once and at most `most` times. */
  ghost predicate Tested(before: map<Path, nat>, after: map<Path, nat>, e: Expr, path: Path, most: nat) {
    forall at | LeafAt(e, at) ::
      Count(before, path + at) + 1 <= Count(after, path + at) <= Count(before, path + at) + most
  }

  /** Tests in the two subtrees below `path` leave each other's leaves alone. */
  lemma TestedApart(t0: map<Path, nat>, t1: map<Path, nat>, e1: Expr, path: Path, step: nat, t2: map<Path, nat>,
                    most: nat)
    requires step <= 1
    requires (Tested(t0, t1, e1, path + [step], most) && SameOutside(t1, t2, path + [1 - step]))
          || (SameOutside(t0, t1, path + [1 - step]) && Tested(t1, t2, e1, path + [step], most))
    ensures Tested(t0, t2, e1, path + [step], most)
  {
    BelowChildren(path);
    forall at | LeafAt(e1, at) ensures Below(path + [step], path + [step] + at) {}
  }

  lemma TestedAgain(t0: map<Path, nat>, t1: map<Path, nat>, t2: map<Path, nat>, e: Expr, path: Path)
    requires Tested(t0, t1, e, path, 1) && Tested(t1, t2, e, path, 1)
    ensures Tested(t0, t2, e, path, 2)
  {
  }

  lemma OutsideOne<T(!new)>(a: map<Path, T>, b: map<Path, T>, c: map<Path, T>, path: Path, step: nat)
    requires step <= 1 && SameOutside(a, b, path) && SameOutside(b, c, path + [step])
    ensures SameOutside(a, c, path)
  {
    BelowChildren(path);
  }

  /** The leaves of a node are those of its two operands. */
  lemma TestedNode(t0: map<Path, nat>, t1: map<Path, nat>, e: Expr, path: Path, most: nat)
    requires e.Binary? ==> Tested(t0, t1, e.left, path + [0], most) && Tested(t0, t1, e.right, path + [1], most)
    requires e.Ternary? ==> Tested(t0, t1, e.tru, path + [0], most) && Tested(t0, t1, e.fal, path + [1], most)
    requires e.Unary? ==> Tested(t0, t1, e.arg, path + [0], most)
    requires !IsLeaf(e)
    ensures Tested(t0, t1, e, path, most)
  {
    forall at | LeafAt(e, at)
      ensures Count(t0, path + at) + 1 <= Count(t1, path + at) <= Count(t0, path + at) + most
    {
      assert path + at == (path + [at[0]]) + at[1..];
      if e.Binary? {
        assert LeafAt(if at[0] == 0 then e.left else e.right, at[1..]);
      } else if e.Ternary? {
        assert LeafAt(if at[0] == 0 then e.tru else e.fal, at[1..]);
      } else {
        assert LeafAt(e.arg, at[1..]);
      }
    }
  }

  /** The mode once both operands of a node have been tested. */
  function OperandsMode(e1: Expr, e2: Expr, mode: Mode, intWidth: nat): Mode {
    if mode.Lossless() || Triggers(e1, intWidth) || Triggers(e2, intWidth) then
      if mode.UPSIZE? || Mixed(e1) || Mixed(e2) then UPSIZE else LOSSLESS
    else if mode.SIZED? && (HasShort(e1, intWidth) || HasShort(e2, intWidth)) then UNSIZED
    else mode
  }

  function Most(mode0: Mode, mode: Mode): nat {
    if mode0.Lossless() || !mode.Lossless() then 1 else 2
  }

  /** A test of `e`, entered in mode `mode0` and left in mode `mode`, took the attributes from
      `i0` to `i1` and the test counts from `t0` to `t1`. */
  ghost predicate Pass(i0: map<Path, Info>, t0: map<Path, nat>, i1: map<Path, Info>, t1: map<Path, nat>,
                       e: Expr, path: Path, mode0: Mode, mode: Mode, intWidth: nat) {
    && mode == FinalMode(e, mode0, intWidth)
    && Recorded(i1, e, path, mode, intWidth)
    && SameOutside(i0, i1, path)
    && SameOutside(t0, t1, path)
    && Tested(t0, t1, e, path, Most(mode0, mode))
  }

  /** The same for the two operands, at `path + [step]` and `path + [1 - step]`. */
  ghost predicate PairPass(i0: map<Path, Info>, t0: map<Path, nat>, i1: map<Path, Info>, t1: map<Path, nat>,
                           e1: Expr, e2: Expr, path: Path, step: nat, mode0: Mode, mode: Mode, intWidth: nat)
    requires step <= 1
  {
    && mode == OperandsMode(e1, e2, mode0, intWidth)
    && Recorded(i1, e1, path + [step], mode, intWidth)
    && Recorded(i1, e2, path + [1 - step], mode, intWidth)
    && SameOutside(i0, i1, path)
    && SameOutside(t0, t1, path)
    && Tested(t0, t1, e1, path + [step], Most(mode0, mode))
    && Tested(t0, t1, e2, path + [1 - step], Most(mode0, mode))
  }

  lemma Siblings<T(!new)>(a: map<Path, T>, b: map<Path, T>, path: Path, step: nat)
    requires step <= 1 && SameOutside(a, b, path + [1 - step])
    ensures SameInside(a, b, path + [step]) && SameOutside(a, b, path)
  {
    BelowChildren(path);
  }

  /** One test of each operand, the second leaving the kind of mode as it found it. */
  lemma OnceEach(i0: map<Path, Info>, t0: map<Path, nat>, i1: map<Path, Info>, t1: map<Path, nat>,
                 i2: map<Path, Info>, t2: map<Path, nat>, e1: Expr, e2: Expr, path: Path, step: nat,
                 mode0: Mode, m1: Mode, m2: Mode, intWidth: nat)
    requires step <= 1
    requires Pass(i0, t0, i1, t1, e1, path + [step], mode0, m1, intWidth)
    requires Pass(i1, t1, i2, t2, e2, path + [1 - step], m1, m2, intWidth)
    requires m1.Lossless() || !m2.Lossless()
    ensures PairPass(i0, t0, i2, t2, e1, e2, path, step, mode0, m2, intWidth)
  {
    hide Recorded, Tested, SameOutside, SameInside, FinalMode, OperandsMode, Most;
    OnceMode(e1, e2, mode0, m1, m2, intWidth);
    Siblings(i0, i1, path, 1 - step);
    Siblings(i1, i2, path, step);
    Siblings(t0, t1, path, 1 - step);
    OutsideOne(i0, i1, i2, path, 1 - step);
    OutsideOne(t0, t1, t2, path, 1 - step);
    RecordedFrame(i1, i2, e1, path + [step], m1, intWidth);
    RecordedRaised(i2, e1, path + [step], m1, m2, intWidth);
    TestedApart(t0, t1, e1, path, step, t2, Most(mode0, m1));
    TestedApart(t0, t1, e2, path, 1 - step, t2, Most(m1, m2));
    TestedMore(t0, t2, e1, path + [step], Most(mode0, m1), Most(mode0, m2));
    TestedMore(t0, t2, e2, path + [1 - step], Most(m1, m2), Most(mode0, m2));
  }

  lemma OnceMode(e1: Expr, e2: Expr, mode0: Mode, m1: Mode, m2: Mode, intWidth: nat)
    requires m1 == FinalMode(e1, mode0, intWidth) && m2 == FinalMode(e2, m1, intWidth)
    requires m1.Lossless() || !m2.Lossless()
    ensures m2 == OperandsMode(e1, e2, mode0, intWidth)
    ensures m2.Expands() == m1.Expands() && m2.Lossless() == m1.Lossless() && (m1.UPSIZE? ==> m2.UPSIZE?)
    ensures Most(mode0, m1) <= Most(mode0, m2) && Most(m1, m2) <= Most(mode0, m2)
  {
    hide Triggers, Mixed, HasShort;
  }

  lemma TestedMore(t0: map<Path, nat>, t1: map<Path, nat>, e: Expr, path: Path, most: nat, more: nat)
    requires Tested(t0, t1, e, path, most) && most <= more
    ensures Tested(t0, t1, e, path, more)
  {
  }

  /** The second operand raised the mode to lossless, so the first was tested again. */
  lemma FirstTwice(i0: map<Path, Info>, t0: map<Path, nat>, i1: map<Path, Info>, t1: map<Path, nat>,
                   i2: map<Path, Info>, t2: map<Path, nat>, i3: map<Path, Info>, t3: map<Path, nat>,
                   e1: Expr, e2: Expr, path: Path, step: nat,
                   mode0: Mode, m1: Mode, m2: Mode, m3: Mode, intWidth: nat)
    requires step <= 1
    requires Pass(i0, t0, i1, t1, e1, path + [step], mode0, m1, intWidth)
    requires Pass(i1, t1, i2, t2, e2, path + [1 - step], m1, m2, intWidth)
    requires Pass(i2, t2, i3, t3, e1, path + [step], m2, m3, intWidth)
    requires m2.Lossless() && !m1.Lossless()
    ensures PairPass(i0, t0, i3, t3, e1, e2, path, step, mode0, m3, intWidth)
  {
    hide Recorded, Tested, SameOutside, SameInside, FinalMode, OperandsMode, Most;
    TwiceMode(e1, e2, mode0, m1, m2, m3, intWidth);
    Siblings(i0, i1, path, 1 - step);
    Siblings(t0, t1, path, 1 - step);
    OutsideOne(i0, i1, i2, path, 1 - step);
    OutsideOne(t0, t1, t2, path, 1 - step);
    OutsideOne(i0, i2, i3, path, step);
    OutsideOne(t0, t2, t3, path, step);
    Siblings(i2, i3, path, 1 - step);
    RecordedFrame(i2, i3, e2, path + [1 - step], m2, intWidth);
    RecordedRaised(i3, e2, path + [1 - step], m2, m3, intWidth);
    TestedApart(t0, t1, e1, path, step, t2, 1);
    TestedAgain(t0, t2, t3, e1, path + [step]);
    TestedApart(t0, t1, e2, path, 1 - step, t2, Most(m1, m2));
    TestedApart(t0, t2, e2, path, 1 - step, t3, Most(m1, m2));
  }

  lemma TwiceMode(e1: Expr, e2: Expr, mode0: Mode, m1: Mode, m2: Mode, m3: Mode, intWidth: nat)
    requires m1 == FinalMode(e1, mode0, intWidth) && m2 == FinalMode(e2, m1, intWidth)
    requires m3 == FinalMode(e1, m2, intWidth) && m2.Lossless() && !m1.Lossless()
    ensures m3 == OperandsMode(e1, e2, mode0, intWidth)
    ensures m3.Expands() == m2.Expands() && m3.Lossless() == m2.Lossless() && (m2.UPSIZE? ==> m3.UPSIZE?)
    ensures Most(mode0, m1) == 1 && Most(m2, m3) == 1 && Most(m1, m2) == Most(mode0, m3) == 2
  {
    hide Triggers, Mixed, HasShort;
  }

  /** Operand `k` of a binary or ternary node. */
  function Operand(e: Expr, k: nat): Expr
    requires e.Binary? || e.Ternary?
  {
    if k == 0 then if e.Binary? then e.left else e.tru
    else if e.Binary? then e.right else e.fal
  }

  /** Writing a node's own attributes completes its pass. */
  lemma NodePass(i0: map<Path, Info>, t0: map<Path, nat>, i1: map<Path, Info>, t1: map<Path, nat>, own: Info,
                 e: Expr, path: Path, step: nat, mode0: Mode, m1: Mode, mode: Mode, intWidth: nat)
    requires step <= 1 && (e.Binary? || e.Ternary?)
    requires PairPass(i0, t0, i1, t1, Operand(e, step), Operand(e, 1 - step), path, step, mode0, m1, intWidth)
    requires mode == if m1.LOSSLESS? && HasSign(Operand(e, 0)) != HasSign(Operand(e, 1)) then UPSIZE else m1
    requires RecordedAt(map[path := own], e, path, mode, intWidth)
    ensures Pass(i0, t0, i1[path := own], t1, e, path, mode0, mode, intWidth)
  {
    hide Tested, SameOutside, SameInside, Recorded, RecordedAt, FinalMode, OperandsMode, HasSign, Operand, IsLeaf;
    var i2, e1, e2 := i1[path := own], Operand(e, step), Operand(e, 1 - step);
    NodeMode(e, step, mode0, m1, mode, intWidth);
    OwnOnly(i0, i1, own, path);
    RecordedFrame(i1, i2, e1, path + [step], m1, intWidth);
    RecordedFrame(i1, i2, e2, path + [1 - step], m1, intWidth);
    RecordedRaised(i2, e1, path + [step], m1, mode, intWidth);
    RecordedRaised(i2, e2, path + [1 - step], m1, mode, intWidth);
    RecordedNode(i2, own, e, path, step, mode, intWidth);
    TestedPair(t0, t1, e, path, step, Most(mode0, mode));
  }

  lemma RecordedNode(info: map<Path, Info>, own: Info, e: Expr, path: Path, step: nat, mode: Mode, intWidth: nat)
    requires path in info && info[path] == own && RecordedAt(map[path := own], e, path, mode, intWidth)
    requires step <= 1 && (e.Binary? || e.Ternary?)
    requires Recorded(info, Operand(e, step), path + [step], mode, intWidth)
    requires Recorded(info, Operand(e, 1 - step), path + [1 - step], mode, intWidth)
    ensures Recorded(info, e, path, mode, intWidth)
  {
    hide MinWidth, ModeWidth, HasSign;
  }

  lemma TestedPair(t0: map<Path, nat>, t1: map<Path, nat>, e: Expr, path: Path, step: nat, most: nat)
    requires step <= 1 && (e.Binary? || e.Ternary?)
    requires Tested(t0, t1, Operand(e, step), path + [step], most)
    requires Tested(t0, t1, Operand(e, 1 - step), path + [1 - step], most)
    ensures Tested(t0, t1, e, path, most)
  {
    hide Tested;
    TestedNode(t0, t1, e, path, most);
  }

  lemma NodeMode(e: Expr, step: nat, mode0: Mode, m1: Mode, mode: Mode, intWidth: nat)
    requires step <= 1 && (e.Binary? || e.Ternary?)
    requires m1 == OperandsMode(Operand(e, step), Operand(e, 1 - step), mode0, intWidth)
    requires mode == if m1.LOSSLESS? && HasSign(Operand(e, 0)) != HasSign(Operand(e, 1)) then UPSIZE else m1
    ensures mode == FinalMode(e, mode0, intWidth)
    ensures mode.Expands() == m1.Expands() && mode.Lossless() == m1.Lossless() && (m1.UPSIZE? ==> mode.UPSIZE?)
    ensures Most(mode0, mode) == Most(mode0, m1)
  {
    hide HasSign, Mixed, Triggers, HasShort;
    NodeParts(e, intWidth);
  }

  lemma NodeParts(e: Expr, intWidth: nat)
    requires e.Binary? || e.Ternary?
    ensures Triggers(e, intWidth) <==> Triggers(Operand(e, 0), intWidth) || Triggers(Operand(e, 1), intWidth)
    ensures HasShort(e, intWidth) <==> HasShort(Operand(e, 0), intWidth) || HasShort(Operand(e, 1), intWidth)
    ensures Mixed(e) <==>
      Mixed(Operand(e, 0)) || Mixed(Operand(e, 1)) || HasSign(Operand(e, 0)) != HasSign(Operand(e, 1))
  {
    hide HasSign;
  }

  lemma OwnOnly(i0: map<Path, Info>, i1: map<Path, Info>, own: Info, path: Path)
    requires SameOutside(i0, i1, path)
    ensures SameOutside(i0, i1[path := own], path)
    ensures SameInside(i1, i1[path := own], path + [0]) && SameInside(i1, i1[path := own], path + [1])
  {
    BelowChildren(path);
  }

  lemma LeafPass(i0: map<Path, Info>, t0: map<Path, nat>, e: Expr, path: Path, mode0: Mode, intWidth: nat)
    requires IsLeaf(e)
    ensures var mode := FinalMode(e, mode0, intWidth);
      Pass(i0, t0, i0[path := Info(ModeWidth(e, mode, intWidth), MinWidth(e), HasSign(e))],
           t0[path := Count(t0, path) + 1], e, path, mode0, mode, intWidth)
  {
    assert forall at | LeafAt(e, at) :: at == [] && path + at == path;
  }

  lemma ExitMode(e: Expr, mode: Mode, intWidth: nat)
    ensures FinalMode(e, mode, intWidth).Lossless() <==> mode.Lossless() || Triggers(e, intWidth)
  {
  }

  lemma PassRoot(i0: map<Path, Info>, t0: map<Path, nat>, i1: map<Path, Info>, t1: map<Path, nat>,
                 e: Expr, path: Path, mode0: Mode, mode: Mode, intWidth: nat)
    requires Pass(i0, t0, i1, t1, e, path, mode0, mode, intWidth)
    ensures path in i1 && i1[path].minWidth == MinWidth(e) && i1[path].signed == HasSign(e)
  {
    hide MinWidth, HasSign, ModeWidth, FinalMode, Tested, SameOutside;
  }

  /** A unary node hands its operand's attributes on. */
  lemma UnaryPass(i0: map<Path, Info>, t0: map<Path, nat>, i1: map<Path, Info>, t1: map<Path, nat>, own: Info,
                  e: Expr, path: Path, mode0: Mode, mode: Mode, intWidth: nat)
    requires e.Unary? && Pass(i0, t0, i1, t1, e.arg, path + [0], mode0, mode, intWidth)
    requires own.minWidth == MinWidth(e.arg) && own.signed == HasSign(e.arg)
    requires var w := ModeWidth(e.arg, mode, intWidth);
      own.width == if mode == UPSIZE && w < intWidth then intWidth else w
    ensures Pass(i0, t0, i1[path := own], t1, e, path, mode0, mode, intWidth)
    ensures ModeWidth(e, mode, intWidth) == ModeWidth(e.arg, mode, intWidth)
  {
    hide Tested, SameOutside, SameInside;
    Siblings(i0, i1, path, 1);
    Siblings(t0, t1, path, 1);
    OwnOnly(i0, i1, own, path);
    RecordedFrame(i1, i1[path := own], e.arg, path + [0], mode, intWidth);
    TestedNode(t0, t1, e, path, Most(mode0, mode));
  }

  lemma PassAccounted(i0: map<Path, Info>, t0: map<Path, nat>, i1: map<Path, Info>, t1: map<Path, nat>,
                      e: Expr, path: Path, mode0: Mode, mode: Mode, intWidth: nat)
    requires Pass(i0, t0, i1, t1, e, path, mode0, mode, intWidth)
    ensures Accounted(e, mode0, mode, ModeWidth(e, mode, intWidth), intWidth)
  {
    hide Pass, Accounted, FinalMode, ModeWidth;
    PassMode(i0, t0, i1, t1, e, path, mode0, mode, intWidth);
    Accounting(e, mode0, mode, intWidth);
  }

  /** Every node has its attributes, and every leaf has been tested once or twice. */
  ghost predicate Everywhere(info: map<Path, Info>, before: map<Path, nat>, after: map<Path, nat>,
                             e: Expr, path: Path, mode0: Mode, mode: Mode, intWidth: nat) {
    && (forall at | NodeAt(e, at) :: path + at in info && Attributes(NodeOf(e, at), mode, info[path + at], intWidth))
    && forall at | LeafOf(e, at) ::
         Count(before, path + at) + 1 <= Count(after, path + at)
         <= Count(before, path + at) +
            if (mode0.LOSSLESS? || mode0.UPSIZE?) || !(mode.LOSSLESS? || mode.UPSIZE?) then 1 else 2
  }

  lemma PassEverywhere(i0: map<Path, Info>, t0: map<Path, nat>, i1: map<Path, Info>, t1: map<Path, nat>,
                       e: Expr, path: Path, mode0: Mode, mode: Mode, intWidth: nat)
    requires Pass(i0, t0, i1, t1, e, path, mode0, mode, intWidth)
    ensures Everywhere(i1, t0, t1, e, path, mode0, mode, intWidth)
  {
    hide Recorded, Attributes, FinalMode, SameOutside;
    forall at | NodeAt(e, at)
      ensures path + at in i1 && Attributes(NodeOf(e, at), mode, i1[path + at], intWidth)
    {
      RecordedBelow(i1, e, path, at, mode, intWidth);
    }
    forall at | LeafOf(e, at) ensures LeafAt(e, at) {
      LeafAtIff(e, at);
    }
  }

  lemma {:induction false} LeafAtIff(e: Expr, at: Path)
    ensures LeafAt(e, at) <==> LeafOf(e, at)
  {
    if at != [] && !IsLeaf(e) && at[0] <= 1 && (e.Unary? ==> at[0] == 0) {
      LeafAtIff(Child(e, at[0]), at[1..]);
    }
  }

  lemma {:induction false} RecordedBelow(info: map<Path, Info>, e: Expr, path: Path, at: Path, mode: Mode,
                                         intWidth: nat)
    requires Recorded(info, e, path, mode, intWidth) && NodeAt(e, at)
    ensures path + at in info && Attributes(NodeOf(e, at), mode, info[path + at], intWidth)
    decreases |at|
  {
    if at == [] {
      assert path + at == path;
      AttributesAre(info, e, path, mode, intWidth);
    } else {
      assert path + at == (path + [at[0]]) + at[1..];
      RecordedBelow(info, Child(e, at[0]), path + [at[0]], at[1..], mode, intWidth);
    }
  }

  lemma AttributesAre(info: map<Path, Info>, e: Expr, path: Path, mode: Mode, intWidth: nat)
    requires RecordedAt(info, e, path, mode, intWidth)
    ensures Attributes(e, mode, info[path], intWidth)
  {
    hide ModeWidth, MinWidth, HasSign, AllSigned, Divides, GreatestOwn, Widest;
    LeavesIff(e, intWidth);
    WidestOwn(e);
    WidestIs(e, mode, intWidth);
    assert Widest(e, ModeWidth(e, mode, intWidth), mode, intWidth);
  }

  class WidthTester {
    const integerWidth: nat
    var info: map<Path, Info>
    /** How often each leaf has been tested. */
    ghost var tests: map<Path, nat>

    constructor (integerWidth: nat)
      ensures this.integerWidth == integerWidth && info == map[] && tests == map[]
    {
      this.integerWidth := integerWidth;
      info, tests := map[], map[];
    }

    /** In mode UPSIZE the stored width is at least an integer's; the width returned is not. */
    method FixWidth(path: Path, mode: Mode) returns (width: nat)
      requires path in info
      modifies this`info
      ensures width == old(info[path].width)
      ensures info == old(info)[path := old(info)[path].(width :=
        if mode == UPSIZE && width < integerWidth then integerWidth else width)]
    {
      width := info[path].width;
      if mode == UPSIZE && width < integerWidth {
        info := info[path := info[path].(width := integerWidth)];
      }
    }

    method TestLeaf(e: Expr, path: Path, mode0: Mode) returns (width: nat, mode: Mode)
      requires IsLeaf(e)
      modifies this
      ensures mode == FinalMode(e, mode0, integerWidth) && width == ModeWidth(e, mode, integerWidth)
      ensures info == old(info)[path := Info(width, MinWidth(e), HasSign(e))]
      ensures tests == old(tests)[path := Count(old(tests), path) + 1]
    {
      mode := mode0;
      tests := tests[path := Count(tests, path) + 1];
      match e {
        case Number(_, len, hasLen, isSingle, signed) =>
          width := len;
          if !hasLen && !isSingle {
            if !mode.Lossless() {
              if width < integerWidth {
                width := integerWidth;
                if mode.SIZED? {
                  mode := UNSIZED;
                }
              } else {
                mode := LOSSLESS;
              }
            }
          }
          info := info[path := Info(width, len, signed)];
        case Ident(_, w, signed) =>
          width := w;
          info := info[path := Info(w, w, signed)];
        case Param(_, w, hasWidth, signed) =>
          width := w;
          info := info[path := Info(w, w, signed)];
          if !hasWidth && !mode.Lossless() {
            mode := LOSSLESS;
          }
      }
    }

    /** Test the width of the expression at `path`, starting in mode `mode0`. */
    method TestWidth(e: Expr, path: Path, mode0: Mode) returns (width: nat, mode: Mode)
      modifies this
      decreases e, 2
      ensures Pass(old(info), old(tests), info, tests, e, path, mode0, mode, integerWidth)
      ensures Everywhere(info, old(tests), tests, e, path, mode0, mode, integerWidth)
      ensures Accounted(e, mode0, mode, width, integerWidth)
      ensures width == ModeWidth(e, mode, integerWidth)
      ensures mode.Lossless() <==> mode0.Lossless() || Triggers(e, integerWidth)
      ensures mode.Lossless() ==> width == TreeWidth(e, true, true, integerWidth)
      ensures info[path].width ==
        if mode == UPSIZE && !IsLeaf(e) && width < integerWidth then integerWidth else width
    {
      hide Everywhere, Accounted, Recorded, Tested, SameOutside, FinalMode;
      match e {
        case Unary(_, arg) =>
          width, mode := TestUnary(e, path, mode0);
        case Binary(_, left, right) =>
          width, mode := TestBinary(e, path, mode0);
        case Ternary(_, tru, fal) =>
          width, mode := TestTernary(e, path, mode0);
        case _ =>
          width, mode := TestLeaf(e, path, mode0);
          LeafPass(old(info), old(tests), e, path, mode0, integerWidth);
      }
      ExitMode(e, mode0, integerWidth);
      PassEverywhere(old(info), old(tests), info, tests, e, path, mode0, mode, integerWidth);
      PassAccounted(old(info), old(tests), info, tests, e, path, mode0, mode, integerWidth);
    }

    method TestUnary(e: Expr, path: Path, mode0: Mode) returns (width: nat, mode: Mode)
      requires e.Unary?
      modifies this
      decreases e, 1
      ensures Pass(old(info), old(tests), info, tests, e, path, mode0, mode, integerWidth)
      ensures Accounted(e, mode0, mode, width, integerWidth)
      ensures width == ModeWidth(e, mode, integerWidth)
      ensures info[path].width == if mode == UPSIZE && width < integerWidth then integerWidth else width
    {
      hide Everywhere, Accounted, Pass, FinalMode, ModeWidth, MinWidth, HasSign, Triggers, TreeWidth;
      width, mode := TestWidth(e.arg, path + [0], mode0);
      ghost var i1 := info;
      PassRoot(old(info), old(tests), info, tests, e.arg, path + [0], mode0, mode, integerWidth);
      info := info[path := Info(width, info[path + [0]].minWidth, info[path + [0]].signed)];
      width := FixWidth(path, mode);
      assert info == i1[path := info[path]];
      UnaryPass(old(info), old(tests), i1, tests, info[path], e, path, mode0, mode, integerWidth);
      PassAccounted(old(info), old(tests), info, tests, e, path, mode0, mode, integerWidth);
    }

    /** Test operand `e1`, then `e2`; if the second raised the mode to lossless, test `e1`
        again, as it may choose a different width then. */
    method TestOperands(ghost parent: Expr, e1: Expr, e2: Expr, path: Path, step: nat, mode0: Mode)
      returns (w1: nat, w2: nat, mode: Mode)
      requires step <= 1 && e1 < parent && e2 < parent
      modifies this
      decreases parent, 0
      ensures PairPass(old(info), old(tests), info, tests, e1, e2, path, step, mode0, mode, integerWidth)
      ensures w1 == ModeWidth(e1, mode, integerWidth) && w2 == ModeWidth(e2, mode, integerWidth)
    {
      hide Everywhere, Pass, PairPass, IsLeaf, TreeWidth, Triggers, Mixed, HasShort;
      var saved;
      w1, saved := TestWidth(e1, path + [step], mode0);
      ghost var i1, t1 := info, tests;
      w2, mode := TestWidth(e2, path + [1 - step], saved);
      PassMode(i1, t1, info, tests, e2, path + [1 - step], saved, mode, integerWidth);
      if mode.Lossless() && !saved.Lossless() {
        ghost var i2, t2, m2 := info, tests, mode;
        w1, mode := TestWidth(e1, path + [step], mode);
        PassMode(i2, t2, info, tests, e1, path + [step], m2, mode, integerWidth);
        FirstTwice(old(info), old(tests), i1, t1, i2, t2, info, tests, e1, e2, path, step, mode0, saved, m2, mode,
                   integerWidth);
      } else {
        OnceEach(old(info), old(tests), i1, t1, info, tests, e1, e2, path, step, mode0, saved, mode, integerWidth);
      }
    }

    method TestBinary(e: Expr, path: Path, mode0: Mode) returns (width: nat, mode: Mode)
      requires e.Binary?
      modifies this
      decreases e, 1
      ensures Pass(old(info), old(tests), info, tests, e, path, mode0, mode, integerWidth)
      ensures Accounted(e, mode0, mode, width, integerWidth)
      ensures width == ModeWidth(e, mode, integerWidth)
      ensures info[path].width == if mode == UPSIZE && width < integerWidth then integerWidth else width
    {
      hide Accounted, Pass, PairPass, FinalMode, OperandsMode, ModeWidth, TreeWidth, MinWidth, HasSign, RecordedAt;
      var rWidth, lWidth;
      rWidth, lWidth, mode := TestOperands(e, e.right, e.left, path, 1, mode0);
      ghost var i1, m1 := info, mode;
      PairRoots(old(info), old(tests), info, tests, e.right, e.left, path, 1, mode0, mode, integerWidth);
      var l, r := info[path + [0]], info[path + [1]];
      var w, minWidth := Max(lWidth, rWidth), Max(l.minWidth, r.minWidth);
      if mode == LOSSLESS && l.signed != r.signed {
        mode := UPSIZE;
      }
      match e.bop {
        case Add | Sub =>
          if mode.Expands() {
            w := w + 1;
          }
        case Mul =>
          if mode.Expands() {
            w := lWidth + rWidth;
          }
        case Div | Mod =>
          minWidth := UINT_MAX;
        case _ =>
      }
      assert w == Combine(e.bop, lWidth, rWidth, mode.Expands());
      hide Combine, Max;
      info := info[path := Info(w, minWidth, l.signed && r.signed)];
      width := FixWidth(path, mode);
      assert info == i1[path := info[path]];
      BinaryPass(old(info), old(tests), i1, tests, info[path], e, path, mode0, m1, mode, integerWidth);
      PassAccounted(old(info), old(tests), info, tests, e, path, mode0, mode, integerWidth);
    }

    method TestTernary(e: Expr, path: Path, mode0: Mode) returns (width: nat, mode: Mode)
      requires e.Ternary?
      modifies this
      decreases e, 1
      ensures Pass(old(info), old(tests), info, tests, e, path, mode0, mode, integerWidth)
      ensures Accounted(e, mode0, mode, width, integerWidth)
      ensures width == ModeWidth(e, mode, integerWidth)
      ensures info[path].width == if mode == UPSIZE && width < integerWidth then integerWidth else width
    {
      hide Accounted, Pass, PairPass, FinalMode, OperandsMode, ModeWidth, TreeWidth, MinWidth, HasSign, RecordedAt;
      var truWidth, falWidth;
      truWidth, falWidth, mode := TestOperands(e, e.tru, e.fal, path, 0, mode0);
      ghost var i1, m1 := info, mode;
      PairRoots(old(info), old(tests), info, tests, e.tru, e.fal, path, 0, mode0, mode, integerWidth);
      var t, f := info[path + [0]], info[path + [1]];
      info := info[path := Info(Max(truWidth, falWidth), Max(t.minWidth, f.minWidth), t.signed && f.signed)];
      if mode == LOSSLESS && t.signed != f.signed {
        mode := UPSIZE;
      }
      width := FixWidth(path, mode);
      assert info == i1[path := info[path]];
      TernaryOwn(e, mode, m1, integerWidth, info[path], path);
      NodePass(old(info), old(tests), i1, tests, info[path], e, path, 0, mode0, m1, mode, integerWidth);
      PassAccounted(old(info), old(tests), info, tests, e, path, mode0, mode, integerWidth);
    }
  }

  lemma BinaryPass(i0: map<Path, Info>, t0: map<Path, nat>, i1: map<Path, Info>, t1: map<Path, nat>, own: Info,
                   e: Expr, path: Path, mode0: Mode, m1: Mode, mode: Mode, intWidth: nat)
    requires e.Binary? && PairPass(i0, t0, i1, t1, e.right, e.left, path, 1, mode0, m1, intWidth)
    requires mode == if m1.LOSSLESS? && HasSign(e.left) != HasSign(e.right) then UPSIZE else m1
    requires var w :=
        Combine(e.bop, ModeWidth(e.left, m1, intWidth), ModeWidth(e.right, m1, intWidth), mode.Expands());
      own.width == if mode == UPSIZE && w < intWidth then intWidth else w
    requires own.minWidth ==
      if e.bop == Div || e.bop == Mod then UINT_MAX else Max(MinWidth(e.left), MinWidth(e.right))
    requires own.signed == (HasSign(e.left) && HasSign(e.right))
    ensures ModeWidth(e, mode, intWidth) ==
      Combine(e.bop, ModeWidth(e.left, m1, intWidth), ModeWidth(e.right, m1, intWidth), mode.Expands())
    ensures Pass(i0, t0, i1[path := own], t1, e, path, mode0, mode, intWidth)
  {
    hide Pass, PairPass, ModeWidth, HasSign, MinWidth, RecordedAt, Combine, Max;
    BinaryOwn(e, mode, m1, intWidth, own, path);
    NodePass(i0, t0, i1, t1, own, e, path, 1, mode0, m1, mode, intWidth);
  }

  /** The attributes that a binary node gets from its operands. */
  lemma BinaryOwn(e: Expr, mode: Mode, m1: Mode, intWidth: nat, own: Info, path: Path)
    requires e.Binary? && mode.Expands() == m1.Expands() && mode.Lossless() == m1.Lossless()
    requires var w :=
        Combine(e.bop, ModeWidth(e.left, m1, intWidth), ModeWidth(e.right, m1, intWidth), mode.Expands());
      own.width == if mode == UPSIZE && w < intWidth then intWidth else w
    requires own.minWidth ==
      if e.bop == Div || e.bop == Mod then UINT_MAX else Max(MinWidth(e.left), MinWidth(e.right))
    requires own.signed == (HasSign(e.left) && HasSign(e.right))
    ensures ModeWidth(e, mode, intWidth) ==
      Combine(e.bop, ModeWidth(e.left, m1, intWidth), ModeWidth(e.right, m1, intWidth), mode.Expands())
    ensures RecordedAt(map[path := own], e, path, mode, intWidth)
  {
    hide Combine, Max;
  }

  lemma TernaryOwn(e: Expr, mode: Mode, m1: Mode, intWidth: nat, own: Info, path: Path)
    requires e.Ternary? && mode.Expands() == m1.Expands() && mode.Lossless() == m1.Lossless()
    requires var w := Max(ModeWidth(e.tru, m1, intWidth), ModeWidth(e.fal, m1, intWidth));
      own.width == if mode == UPSIZE && w < intWidth then intWidth else w
    requires own.minWidth == Max(MinWidth(e.tru), MinWidth(e.fal))
    requires own.signed == (HasSign(e.tru) && HasSign(e.fal))
    ensures ModeWidth(e, mode, intWidth) == Max(ModeWidth(e.tru, m1, intWidth), ModeWidth(e.fal, m1, intWidth))
    ensures RecordedAt(map[path := own], e, path, mode, intWidth)
  {
    hide Max;
  }

  lemma PassMode(i0: map<Path, Info>, t0: map<Path, nat>, i1: map<Path, Info>, t1: map<Path, nat>,
                 e: Expr, path: Path, mode0: Mode, mode: Mode, intWidth: nat)
    requires Pass(i0, t0, i1, t1, e, path, mode0, mode, intWidth)
    ensures mode == FinalMode(e, mode0, intWidth)
  {
  }

  lemma PairRoots(i0: map<Path, Info>, t0: map<Path, nat>, i1: map<Path, Info>, t1: map<Path, nat>,
                  e1: Expr, e2: Expr, path: Path, step: nat, mode0: Mode, mode: Mode, intWidth: nat)
    requires step <= 1 && PairPass(i0, t0, i1, t1, e1, e2, path, step, mode0, mode, intWidth)
    ensures path + [step] in i1 && path + [1 - step] in i1
    ensures i1[path + [step]].minWidth == MinWidth(e1) && i1[path + [step]].signed == HasSign(e1)
    ensures i1[path + [1 - step]].minWidth == MinWidth(e2) && i1[path + [1 - step]].signed == HasSign(e2)
  {
    hide MinWidth, HasSign, ModeWidth, OperandsMode, Tested, SameOutside;
  }
}
