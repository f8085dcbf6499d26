/** Special cases in the elaboration of shifts and of products with a constant: each denotes
    what the general operator does, for every value of the operands (sections 5.1.5 and 5.1.12
    of IEEE 1364-2005). */
module ShiftFold {
  import opened FourState
  import opened PowersOfTwo
  import opened BitVectors

  datatype ShiftOp = ShiftLeft | ShiftRight | ArithmeticRight

  /** Elaborated expressions. `isBool` marks 2-state ones. */
  datatype NetExpr =
    | Const(bits: Vec, isBool: bool)
    | Operand(id: nat, width: nat, isBool: bool)
    | Shift(op: ShiftOp, arg: NetExpr, amount: NetExpr, wid: nat, signed: bool)
    | BitSelect(of: NetExpr, index: nat)
    | PadSigned(bit: NetExpr, wid: nat)
    | Mult(left: NetExpr, right: NetExpr, wid: nat)

  const ULONG_MAX: nat := 0xFFFF_FFFF_FFFF_FFFF

  predicate IsBool(e: NetExpr) {
    (e.Const? || e.Operand?) && e.isBool
  }

  function Width(e: NetExpr): nat {
    match e
    case Const(bits, _) => |bits|
    case Operand(_, width, _) => width
    case Shift(_, _, _, wid, _) => wid
    case BitSelect(_, _) => 1
    case PadSigned(_, wid) => wid
    case Mult(_, _, wid) => wid
  }

  /** A 2-state operand has no x or z. */
  ghost predicate Typed(e: NetExpr, env: nat -> Vec) {
    match e
    case Const(bits, isBool) => isBool ==> IsDefined(bits)
    case Operand(id, width, isBool) => |env(id)| == width && (isBool ==> IsDefined(env(id)))
    case Shift(_, arg, amount, wid, _) => Typed(arg, env) && Typed(amount, env) && Width(arg) == wid > 0
    case BitSelect(of, index) => Typed(of, env) && index < Width(of)
    case PadSigned(bit, _) => Typed(bit, env) && Width(bit) > 0
    case Mult(left, right, wid) => Typed(left, env) && Typed(right, env) && Width(left) == Width(right) == wid
  }

  // ----- the general operators

  /** Bits shifted in are zeros, or copies of the sign bit; an undefined amount makes every bit
      unknown. */
  function ShiftBits(op: ShiftOp, v: Vec, amount: Vec, signed: bool): (r: Vec)
    requires v != []
    ensures |r| == |v|
  {
    if !IsDefined(amount) then Fill(Vx, |v|)
    else
      var n := Nat(amount);
      match op
      case ShiftLeft => seq(|v|, k requires 0 <= k < |v| => if k >= n then v[k - n] else V0)
      case ShiftRight => seq(|v|, k requires 0 <= k < |v| => if k + n < |v| then v[k + n] else V0)
      case ArithmeticRight =>
        seq(|v|, k requires 0 <= k < |v| =>
          if k + n < |v| then v[k + n] else if signed then v[|v| - 1] else V0)
  }

  /** The low bits of a natural number. */
  function ToBits(x: nat, width: nat): (r: Vec)
    ensures |r| == width && IsDefined(r) && Nat(r) == Wrap(x, width)
  {
    if width == 0 then
      assert Wrap(x, 0) == 0 by { assert Pow2(0) == 1; }
      []
    else
      var rest := ToBits(x / 2, width - 1);
      HalfWrap(x, width);
      [if x % 2 == 1 then V1 else V0] + rest
  }

  lemma HalfWrap(x: nat, width: nat)
    requires width > 0
    ensures Wrap(x, width) == x % 2 + 2 * Wrap(x / 2, width - 1)
  {
    var m := Pow2(width - 1);
    var h := x / 2;
    var q := h / m;
    assert h == q * m + h % m;
    assert x == 2 * h + x % 2;
    assert x == q * (2 * m) + (2 * (h % m) + x % 2) by { assert 2 * (q * m) == q * (2 * m); }
    ModUnique(x, q, 2 * (h % m) + x % 2, 2 * m);
  }

  function MultBits(a: Vec, b: Vec): (r: Vec)
    requires |a| == |b|
    ensures |r| == |a|
  {
    if IsDefined(a) && IsDefined(b) then
      Product(Nat(a), Nat(b));
      ToBits(Nat(a) * Nat(b), |a|)
    else Fill(Vx, |a|)
  }

  function Eval(e: NetExpr, env: nat -> Vec): (r: Vec)
    requires Typed(e, env)
    ensures |r| == Width(e)
  {
    match e
    case Const(bits, _) => bits
    case Operand(id, _, _) => env(id)
    case Shift(op, arg, amount, _, signed) => ShiftBits(op, Eval(arg, env), Eval(amount, env), signed)
    case BitSelect(of, index) => [Eval(of, env)[index]]
    case PadSigned(bit, wid) => Fill(Eval(bit, env)[Width(bit) - 1], wid)
    case Mult(left, right, _) => MultBits(Eval(left, env), Eval(right, env))
  }

  // ----- elaboration

  /** The shift amount as an unsigned machine word: the greatest one if it does not fit. */
  function AsUlong(v: Vec): nat {
    if !IsDefined(v) then 0 else if Nat(v) > ULONG_MAX then ULONG_MAX else Nat(v)
  }

  predicate IsZero(v: Vec) {
    forall k | 0 <= k < |v| :: v[k] == V0
  }

  function ElaborateShift(op: ShiftOp, lp: NetExpr, rp: NetExpr, wid: nat, signed: bool): NetExpr
    requires wid > 0
  {
    if lp.Const? then
      if IsDefined(lp.bits) && IsZero(lp.bits) && IsBool(rp) then Const(Fill(V0, wid), false)
      else Shift(op, lp, rp, wid, signed)
    else if rp.Const? then
      var shift := AsUlong(rp.bits);
      if !IsDefined(rp.bits) then Const(Fill(Vx, wid), false)
      else if shift == 0 then lp
      else if op.ArithmeticRight? && signed && shift >= wid then PadSigned(BitSelect(lp, wid - 1), wid)
      else if shift >= wid then Const(Fill(V0, wid), false)
      else Shift(op, lp, rp, wid, signed)
    else Shift(op, lp, rp, wid, signed)
  }

  function ElaborateMult(lp: NetExpr, rp: NetExpr, wid: nat): NetExpr {
    var (l, r) := if lp.Const? then (rp, lp) else (lp, rp);
    if r.Const? && !IsDefined(r.bits) && !IsBool(l) then Const(Fill(Vx, wid), false)
    else if r.Const? && IsZero(r.bits) && IsBool(l) then Const(Fill(V0, wid), false)
    else Mult(l, r, wid)
  }

  /** Whatever special case applies, a shift evaluates to the general shift. */
  lemma ShiftFoldIsExact(op: ShiftOp, lp: NetExpr, rp: NetExpr, wid: nat, signed: bool, env: nat -> Vec)
    requires Typed(Shift(op, lp, rp, wid, signed), env) && wid <= ULONG_MAX
    ensures Typed(ElaborateShift(op, lp, rp, wid, signed), env)
    ensures Eval(ElaborateShift(op, lp, rp, wid, signed), env) == Eval(Shift(op, lp, rp, wid, signed), env)
  {
    hide ShiftBits;
    var v, amount := Eval(lp, env), Eval(rp, env);
    if lp.Const? {
      if IsDefined(v) && IsZero(v) && IsBool(rp) {
        BoolDefined(rp, env);
        ZeroShifted(op, v, amount, signed);
      }
    } else if rp.Const? {
      if !IsDefined(amount) {
        UnknownShift(op, v, amount, signed);
      } else if Nat(amount) == 0 {
        NotShifted(op, v, amount, signed);
      } else if Nat(amount) >= wid {
        ShiftedOut(op, v, amount, signed);
      }
    }
  }

  lemma BoolDefined(e: NetExpr, env: nat -> Vec)
    requires Typed(e, env) && IsBool(e)
    ensures IsDefined(Eval(e, env))
  {
  }

  lemma ZeroShifted(op: ShiftOp, v: Vec, amount: Vec, signed: bool)
    requires v != [] && IsZero(v) && IsDefined(amount)
    ensures ShiftBits(op, v, amount, signed) == Fill(V0, |v|)
  {
    hide IsDefined;
  }

  lemma UnknownShift(op: ShiftOp, v: Vec, amount: Vec, signed: bool)
    requires v != [] && !IsDefined(amount)
    ensures ShiftBits(op, v, amount, signed) == Fill(Vx, |v|)
  {
  }

  lemma NotShifted(op: ShiftOp, v: Vec, amount: Vec, signed: bool)
    requires v != [] && IsDefined(amount) && Nat(amount) == 0
    ensures ShiftBits(op, v, amount, signed) == v
  {
    hide IsDefined;
  }

  lemma ShiftedOut(op: ShiftOp, v: Vec, amount: Vec, signed: bool)
    requires v != [] && IsDefined(amount) && Nat(amount) >= |v|
    ensures ShiftBits(op, v, amount, signed)
      == Fill(if op.ArithmeticRight? && signed then v[|v| - 1] else V0, |v|)
  {
    hide IsDefined;
  }

  lemma ZeroProduct(v: Vec)
    requires IsZero(v)
    ensures IsDefined(v) && Nat(v) == 0
  {
    assert v == Fill(V0, |v|);
    NatIsZero(v);
  }

  /** A product with a constant evaluates to the general product. */
  lemma MultFoldIsExact(lp: NetExpr, rp: NetExpr, wid: nat, env: nat -> Vec)
    requires Typed(Mult(lp, rp, wid), env)
    ensures Typed(ElaborateMult(lp, rp, wid), env)
    ensures Eval(ElaborateMult(lp, rp, wid), env) == Eval(Mult(lp, rp, wid), env)
  {
    hide MultBits, ToBits, Nat;
    MultSwaps(Eval(lp, env), Eval(rp, env));
    var l, r := if lp.Const? then rp else lp, if lp.Const? then lp else rp;
    var a, c := Eval(l, env), Eval(r, env);
    if r.Const? && !IsDefined(c) {
      UnknownProduct(a, c);
    } else if r.Const? && IsZero(c) && IsBool(l) {
      BoolDefined(l, env);
      ZeroTimes(a, c);
    }
  }

  lemma MultSwaps(a: Vec, b: Vec)
    requires |a| == |b|
    ensures MultBits(a, b) == MultBits(b, a)
  {
  }

  lemma UnknownProduct(a: Vec, b: Vec)
    requires |a| == |b| && !IsDefined(b)
    ensures MultBits(a, b) == Fill(Vx, |a|)
  {
  }

  lemma ZeroTimes(a: Vec, b: Vec)
    requires |a| == |b| && IsDefined(a) && IsZero(b)
    ensures MultBits(a, b) == Fill(V0, |a|)
  {
    ZeroProduct(b);
    hide IsZero, Nat;
    assert Wrap(0, |a|) == 0;
    NatIsZero(ToBits(0, |a|));
  }

  /** The guards on the operand types are needed: without them a zero constant would hide an
      unknown operand. */
  lemma ZeroNeedsTwoState(v: Vec)
    requires v != [] && !IsDefined(v)
    ensures MultBits(v, Fill(V0, |v|)) != Fill(V0, |v|)
    ensures ShiftBits(ShiftLeft, [V0], v, false) != [V0]
  {
    assert MultBits(v, Fill(V0, |v|))[0] == Vx;
    assert ShiftBits(ShiftLeft, [V0], v, false)[0] == Vx;
  }

  // ----- what the general shift is, and what is folded

  /** Shifting drops bits at one end and fills the other. */
  lemma ShiftMoves(op: ShiftOp, v: Vec, amount: Vec, signed: bool)
    requires v != [] && IsDefined(amount)
    ensures var n, w := Nat(amount), |v|;
      var fill := if op.ArithmeticRight? && signed then v[w - 1] else V0;
      ShiftBits(op, v, amount, signed) ==
        if n >= w then Fill(fill, w)
        else if op.ShiftLeft? then Fill(V0, n) + v[..w - n]
        else v[n..] + Fill(fill, n)
  {
    hide IsDefined, Nat;
  }

  /** On numbers: a product with a power of two that wraps, or a quotient. */
  lemma ShiftNumber(v: Vec, amount: Vec)
    requires v != [] && IsDefined(v) && IsDefined(amount)
    ensures Nat(ShiftBits(ShiftLeft, v, amount, false)) == Wrap(Nat(v) * Pow2(Nat(amount)), |v|)
    ensures Nat(ShiftBits(ShiftRight, v, amount, false)) == Nat(v) / Pow2(Nat(amount))
    ensures Int(ShiftBits(ArithmeticRight, v, amount, true), true) == Int(v, true) / Pow2(Nat(amount))
  {
    hide ShiftBits, Nat, Pow2, IsDefined;
    ShiftMoves(ShiftLeft, v, amount, false);
    ShiftMoves(ShiftRight, v, amount, false);
    ShiftMoves(ArithmeticRight, v, amount, true);
    var n := Nat(amount);
    if n >= |v| {
      NothingLeft(v, n);
    } else {
      LeftNumber(v, n);
      RightNumber(v, n);
    }
  }

  lemma LeftNumber(v: Vec, n: nat)
    requires n < |v|
    ensures Nat(Fill(V0, n) + v[..|v| - n]) == Wrap(Nat(v) * Pow2(n), |v|)
  {
    hide Nat, Pow2;
    var w := |v|;
    var low, high := v[..w - n], v[w - n..];
    assert v == low + high;
    NatConcat(low, high);
    NatConcat(Fill(V0, n), low);
    NatIsZero(Fill(V0, n));
    NatBound(low);
    Pow2Sum(n, w - n);
    LowMultiple(Nat(low), Pow2(w - n), Nat(high), Pow2(n));
  }

  lemma RightNumber(v: Vec, n: nat)
    requires n < |v| && IsDefined(v)
    ensures Nat(v[n..] + Fill(V0, n)) == Nat(v) / Pow2(n)
    ensures Int(v[n..] + Fill(v[|v| - 1], n), true) == Int(v, true) / Pow2(n)
  {
    hide Nat, Pow2, Int, Negative;
    var low, high := v[..n], v[n..];
    assert v == low + high && IsDefined(high);
    NatConcat(low, high);
    NatBound(low);
    NatConcat(high, Fill(V0, n));
    NatIsZero(Fill(V0, n));
    HighQuotient(Nat(low), Pow2(n), Nat(high));
    SignBits(v, n);
    ExtendKeepsInt(high, n, true);
    HighQuotient(Nat(low), Pow2(n), Int(high, true));
  }

  /** A signed number in terms of its low bits and the rest. */
  lemma SignBits(v: Vec, n: nat)
    requires n < |v| && IsDefined(v)
    ensures Int(v, true) == Nat(v[..n]) + Pow2(n) * Int(v[n..], true)
    ensures v[|v| - 1] == if Negative(v[n..], true) then V1 else V0
  {
    hide Nat, Pow2;
    assert v == v[..n] + v[n..];
    NatConcat(v[..n], v[n..]);
    Pow2Sum(n, |v| - n);
    var p, q, h := Pow2(n), Pow2(|v| - n), Nat(v[n..]);
    assert p * (h - q) == p * h - p * q;
  }

  lemma NothingLeft(v: Vec, n: nat)
    requires v != [] && IsDefined(v) && n >= |v|
    ensures Nat(Fill(V0, |v|)) == Wrap(Nat(v) * Pow2(n), |v|) == Nat(v) / Pow2(n)
    ensures Int(Fill(v[|v| - 1], |v|), true) == Int(v, true) / Pow2(n)
  {
    hide Nat, Pow2, Int;
    NatIsZero(Fill(V0, |v|));
    NatBound(v);
    Pow2Grows(|v|, n);
    MultipleOfPow2(Nat(v), |v|, n);
    DivUnique(Nat(v), 0, Nat(v), Pow2(n));
    AllSign(v);
    DivUnique(Int(v, true), if v[|v| - 1] == V1 then -1 else 0,
              Int(v, true) + if v[|v| - 1] == V1 then Pow2(n) else 0, Pow2(n));
  }

  lemma MultipleOfPow2(x: int, w: nat, n: nat)
    requires w <= n
    ensures Wrap(x * Pow2(n), w) == 0
  {
    hide Pow2;
    Pow2Sum(w, n - w);
    NothingLow(x, Pow2(w), Pow2(n - w));
  }

  lemma AllSign(v: Vec)
    requires v != [] && IsDefined(v)
    ensures Int(Fill(v[|v| - 1], |v|), true) == if v[|v| - 1] == V1 then -1 else 0
    ensures if v[|v| - 1] == V1 then -Pow2(|v|) <= Int(v, true) < 0 else 0 <= Int(v, true) < Pow2(|v|)
  {
    hide Nat, Pow2;
    NatIsZero(Fill(V0, |v|));
    NatIsMax(Fill(V1, |v|));
    NatBound(v);
  }

  /** Which constant operands decide a shift beforehand, and what they make of it. */
  lemma ShiftDecided(op: ShiftOp, lp: NetExpr, rp: NetExpr, wid: nat, signed: bool)
    requires wid > 0
    ensures var r := ElaborateShift(op, lp, rp, wid, signed);
      if lp.Const? then
        r == if (forall k | 0 <= k < |lp.bits| :: lp.bits[k] == V0) && IsBool(rp) then Const(Fill(V0, wid), false)
             else Shift(op, lp, rp, wid, signed)
      else if !rp.Const? then r == Shift(op, lp, rp, wid, signed)
      else if exists k :: 0 <= k < |rp.bits| && rp.bits[k] != V0 && rp.bits[k] != V1 then
        r == Const(Fill(Vx, wid), false)
      else if Nat(rp.bits) == 0 then r == lp
      else if Nat(rp.bits) < wid <= 0xFFFF_FFFF_FFFF_FFFF then r == Shift(op, lp, rp, wid, signed)
      else if wid <= Nat(rp.bits) && wid <= 0xFFFF_FFFF_FFFF_FFFF then
        r == if signed && op == ArithmeticRight then PadSigned(BitSelect(lp, wid - 1), wid)
             else Const(Fill(V0, wid), false)
      else true
  {
    hide Nat;
  }

  /** A product is left to be done at run time exactly if no operand is a constant that decides it. */
  lemma MultKept(lp: NetExpr, rp: NetExpr, wid: nat)
    ensures var other, c := if lp.Const? then rp else lp, if lp.Const? then lp else rp;
      && (ElaborateMult(lp, rp, wid).Mult? <==>
            !c.Const?
            || (if IsBool(other) then exists k :: 0 <= k < |c.bits| && c.bits[k] != V0 else IsDefined(c.bits)))
      && (!ElaborateMult(lp, rp, wid).Mult? ==>
            ElaborateMult(lp, rp, wid) == Const(Fill(if IsBool(other) then V0 else Vx, wid), false))
  {
  }
}
