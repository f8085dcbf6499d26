/** Enumerations: numbering the names, and fitting explicit values to the width of the base
    type. */
module Enumeration {
  import opened FourState
  import opened PowersOfTwo
  import opened BitVectors

  /** An evaluated constant. */
  datatype Verinum = Verinum(bits: Vec, hasLen: bool, hasSign: bool)

  /** What follows a name: nothing, an expression that is not constant, or a constant. The
      constant may be a plain number that was written with a size. */
  datatype Given = Implicit | NotConstant | Explicit(value: Verinum, sizedLiteral: bool, literalLen: nat)

  datatype Item = Item(name: nat, given: Given)
  datatype Member = Member(name: nat, bits: Vec)

  /** The base type. */
  datatype Base = Base(width: nat, signed: bool, twoState: bool)

  ghost predicate Wellformed(items: seq<Item>, base: Base) {
    && base.width > 0
    && forall i | 0 <= i < |items| && items[i].given.Explicit? :: items[i].given.value.bits != []
  }

  function OneValue(width: nat): (r: Vec)
    requires width > 0
    ensures |r| == width && IsDefined(r)
  {
    [V1] + Fill(V0, width - 1)
  }

  /** The largest value, as the elaborator computes it: a power of two less the increment. */
  function MaxValue(base: Base): int
    requires base.width > 0
  {
    Pow2(if base.signed then base.width - 1 else base.width) - Int(OneValue(base.width), base.signed)
  }

  /** The bit that a narrower constant is extended with. */
  function PadBit(v: Verinum): V4
    requires v.bits != []
  {
    var top := v.bits[|v.bits| - 1];
    if top == V1 && !v.hasSign then V0
    else if (top == Vx || top == Vz) && v.hasLen && !v.hasSign then V0
    else top
  }

  /** A constant padded or truncated. */
  function Resized(v: Verinum, width: nat): (r: Vec)
    requires v.bits != []
    ensures |r| == width
  {
    if |v.bits| < width then v.bits + Fill(PadBit(v), width - |v.bits|) else v.bits[..width]
  }

  predicate AllFrom(bits: Vec, from: nat, bit: V4) {
    forall idx | from <= idx < |bits| :: bits[idx] == bit
  }

  /** The bits to be cut off are copies of the top bit that stays or, in an unsigned
      enumeration, zeros. */
  predicate CopiesTop(v: Verinum, base: Base)
    requires 0 < base.width < |v.bits|
  {
    || AllFrom(v.bits, base.width, v.bits[base.width - 1])
    || (!base.signed && AllFrom(v.bits, base.width, V0))
  }

  /** Cutting is allowed: and an unsigned constant has no 1 just above. */
  predicate TrimsClean(v: Verinum, base: Base)
    requires 0 < base.width < |v.bits|
  {
    && CopiesTop(v, base)
    && !(!v.hasSign && v.bits[base.width] == V1)
  }

  predicate ExplicitOk(given: Given, base: Base)
    requires given.Explicit? && given.value.bits != [] && base.width > 0
  {
    var v := given.value;
    && (base.twoState ==> IsDefined(v.bits))
    && (given.sizedLiteral ==> given.literalLen == base.width)
    && !((|v.bits| != base.width || !v.hasLen) && !base.signed && Negative(v.bits, v.hasSign))
    && (|v.bits| > base.width ==> TrimsClean(v, base))
  }

  function Next(bits: Vec, base: Base): (r: Vec)
    requires |bits| == base.width > 0
    ensures |r| == base.width
  {
    if IsDefined(bits) then Add(bits, OneValue(base.width), false) else bits
  }

  /** The value of name `i` in an enumeration without errors. */
  ghost function ValueAt(items: seq<Item>, i: nat, base: Base): (r: Vec)
    requires Wellformed(items, base) && i < |items|
    ensures |r| == base.width
  {
    if items[i].given.Explicit? then Resized(items[i].given.value, base.width)
    else if i == 0 then Fill(V0, base.width)
    else Next(ValueAt(items, i - 1, base), base)
  }

  ghost predicate IsMax(bits: Vec, base: Base)
    requires base.width > 0
  {
    IsDefined(bits) && Int(bits, base.signed) == MaxValue(base)
  }

  /** The value of name `i` is allowed. */
  ghost predicate GivenOk(items: seq<Item>, i: nat, base: Base)
    requires Wellformed(items, base) && i < |items|
  {
    match items[i].given
    case Implicit =>
      i == 0 || (var prev := ValueAt(items, i - 1, base); IsDefined(prev) && !IsMax(prev, base))
    case NotConstant => false
    case Explicit(_, _, _) => ExplicitOk(items[i].given, base)
  }

  /** Name `i` is in order: its value is allowed, and neither the name nor the value has been
      used. */
  ghost predicate ItemOk(items: seq<Item>, i: nat, base: Base)
    requires Wellformed(items, base) && i < |items|
  {
    && GivenOk(items, i, base)
    && forall j: nat | j < i :: items[j].name != items[i].name && ValueAt(items, j, base) != ValueAt(items, i, base)
  }

  ghost predicate OkUpTo(items: seq<Item>, n: nat, base: Base)
    requires Wellformed(items, base) && n <= |items|
  {
    forall i: nat | i < n :: ItemOk(items, i, base)
  }

  // ----- what an enumeration without errors guarantees

  lemma PaddingKeepsValue(v: Verinum, width: nat, signed: bool)
    requires v.bits != [] && |v.bits| < width && IsDefined(v.bits)
    requires signed || !Negative(v.bits, v.hasSign)
    ensures Int(Resized(v, width), signed) == Int(v.bits, v.hasSign) && IsDefined(Resized(v, width))
  {
    var n := width - |v.bits|;
    ExtendKeepsInt(v.bits, n, v.hasSign);
    var wide := v.bits + Fill(PadBit(v), n);
    assert wide[|wide| - 1] == PadBit(v);
  }

  /** The value of a vector in terms of its low bits and the rest. */
  lemma SplitInt(v: Vec, width: nat, signed: bool)
    requires 0 < width < |v|
    ensures Int(v, signed) == Nat(v[..width]) + Pow2(width) * Int(v[width..], signed)
  {
    hide Pow2, Nat;
    assert v == v[..width] + v[width..];
    NatConcat(v[..width], v[width..]);
    Pow2Sum(width, |v| - width);
    MinusDistributes(Pow2(width), Nat(v[width..]), Pow2(|v| - width));
  }

  lemma MinusDistributes(p: int, h: int, q: int)
    ensures p * (h - q) == p * h - p * q
  {
  }

  /** When a number with low part `lo` fits, the high part can only be 0, or -1 below 0. */
  lemma HighPart(lo: nat, hi: int, p: int, x: int)
    requires lo < p && x == lo + p * hi
    ensures hi == 0 ==> x == lo
    ensures hi == -1 ==> x == lo - p
    ensures hi > 0 ==> x >= p
    ensures hi < -1 ==> x < -p
  {
    MultipleBelow(hi, p);
    MultipleBelow(hi + 1, p);
    assert p * (hi + 1) == p * hi + p;
  }

  predicate Representable(x: int, base: Base)
    requires base.width > 0
  {
    if base.signed then -Pow2(base.width - 1) <= x < Pow2(base.width - 1) else 0 <= x < Pow2(base.width)
  }

  /** The high part is 0 or -1 exactly if its bits are all alike. */
  lemma HighBits(hi: Vec, signed: bool)
    requires hi != [] && IsDefined(hi)
    ensures Int(hi, signed) == 0 <==> AllFrom(hi, 0, V0)
    ensures Int(hi, signed) == -1 <==> signed && AllFrom(hi, 0, V1)
  {
    NatBound(hi);
    NatIsZero(hi);
    NatIsMax(hi);
    assert AllFrom(hi, 0, V0) <==> hi == Fill(V0, |hi|);
    assert AllFrom(hi, 0, V1) <==> hi == Fill(V1, |hi|);
    NatTop(hi);
    assert Pow2(|hi|) == 2 * Pow2(|hi| - 1);
  }

  /** A defined constant that is too wide is accepted exactly if its value is representable, and
      then cutting it keeps the value. */
  lemma TrimIsExact(v: Verinum, base: Base)
    requires 0 < base.width < |v.bits| && IsDefined(v.bits)
    requires base.signed || !Negative(v.bits, v.hasSign)
    ensures TrimsClean(v, base) <==> Representable(Int(v.bits, v.hasSign), base)
    ensures TrimsClean(v, base) ==> Int(Resized(v, base.width), base.signed) == Int(v.bits, v.hasSign)
  {
    hide Int, Nat, Pow2, IsDefined, AllFrom, TrimsClean, Negative;
    var lo, hi := v.bits[..base.width], v.bits[base.width..];
    DefinedParts(v.bits, base.width);
    TrimBits(v, base, lo, hi);
    LowInt(lo, base.signed);
    HighBits(hi, v.hasSign);
    SplitInt(v.bits, base.width, v.hasSign);
    HighPart(Nat(lo), Int(hi, v.hasSign), Pow2(base.width), Int(v.bits, v.hasSign));
    NotBelowZero(v.bits, v.hasSign);
  }

  /** The condition in terms of the part that stays and the part to be cut off. */
  lemma TrimBits(v: Verinum, base: Base, lo: Vec, hi: Vec)
    requires 0 < base.width < |v.bits| && IsDefined(lo) && IsDefined(hi)
    requires lo == v.bits[..base.width] && hi == v.bits[base.width..]
    ensures TrimsClean(v, base) <==>
      || (AllFrom(hi, 0, V0) && (!base.signed || lo[base.width - 1] == V0))
      || (AllFrom(hi, 0, V1) && lo[base.width - 1] == V1 && v.hasSign)
  {
    AllFromHigh(v.bits, base.width);
    assert v.bits[base.width] == hi[0] && v.bits[base.width - 1] == lo[base.width - 1];
    assert AllFrom(hi, 0, V1) ==> hi[0] == V1;
    assert AllFrom(hi, 0, V0) ==> hi[0] == V0;
    assert lo[base.width - 1] == V0 || lo[base.width - 1] == V1;
    hide AllFrom;
  }

  lemma LowInt(lo: Vec, signed: bool)
    requires lo != [] && IsDefined(lo)
    ensures Pow2(|lo|) == 2 * Pow2(|lo| - 1) && Nat(lo) < Pow2(|lo|)
    ensures lo[|lo| - 1] == V0 || lo[|lo| - 1] == V1
    ensures lo[|lo| - 1] == V1 <==> Nat(lo) >= Pow2(|lo| - 1)
    ensures Int(lo, signed) == Nat(lo) - if signed && lo[|lo| - 1] == V1 then Pow2(|lo|) else 0
  {
    hide Nat;
    NatBound(lo);
    NatTop(lo);
  }

  lemma NotBelowZero(v: Vec, signed: bool)
    ensures !Negative(v, signed) ==> Int(v, signed) >= 0
  {
  }

  lemma DefinedParts(v: Vec, width: nat)
    requires width <= |v| && IsDefined(v)
    ensures IsDefined(v[..width]) && IsDefined(v[width..])
  {
  }

  lemma AllFromHigh(v: Vec, width: nat)
    requires width <= |v|
    ensures forall bit :: AllFrom(v, width, bit) <==> AllFrom(v[width..], 0, bit)
  {
    forall bit ensures AllFrom(v, width, bit) <==> AllFrom(v[width..], 0, bit) {
      if AllFrom(v[width..], 0, bit) {
        forall idx | width <= idx < |v| ensures v[idx] == bit {
          assert v[width..][idx - width] == bit;
        }
      }
    }
  }

  /** Incrementing adds one over the integers, the largest value and one oddity apart: in a
      signed enumeration of width 1 the increment is -1, and that takes 0 to -1 unnoticed. */
  lemma NextIsPlusOne(bits: Vec, base: Base)
    requires |bits| == base.width > 0 && IsDefined(bits) && !IsMax(bits, base)
    ensures Int(Next(bits, base), base.signed) == Int(bits, base.signed) + 1
        <==> !(base.signed && base.width == 1 && Int(bits, base.signed) == 0)
  {
    hide Nat, Add;
    var w := base.width;
    var one, next := OneValue(w), Next(bits, base);
    OneIs(w);
    var out := AddIsSum(bits, one, false);
    assert Nat(next) + Pow2(w) * out == Nat(bits) + 1;
    NatBound(next);
    NatBound(bits);
    NatTop(bits);
    NatTop(next);
    assert Pow2(w) == 2 * Pow2(w - 1);
    assert w > 1 ==> Pow2(w - 1) == 2 * Pow2(w - 2);
    if out == 1 {
      assert Nat(next) == 0;
    }
  }

  lemma OneIs(width: nat)
    requires width > 0
    ensures Nat(OneValue(width)) == 1
    ensures Int(OneValue(width), false) == 1 && Int(OneValue(width), true) == if width == 1 then -1 else 1
  {
    var one := OneValue(width);
    assert one[1..] == Fill(V0, width - 1);
    NatIsZero(one[1..]);
    assert width == 1 ==> Pow2(1) == 2;
  }

  lemma {:induction false} DefinedValue(items: seq<Item>, i: nat, base: Base)
    requires Wellformed(items, base) && i < |items| && OkUpTo(items, |items|, base)
    requires forall k | 0 <= k < |items| && items[k].given.Explicit? :: IsDefined(items[k].given.value.bits)
    ensures IsDefined(ValueAt(items, i, base))
  {
    assert ItemOk(items, i, base);
    if items[i].given.Explicit? {
      var v := items[i].given.value;
      if |v.bits| < base.width {
        ExtendKeepsInt(v.bits, base.width - |v.bits|, v.hasSign);
      }
    } else if i > 0 {
      DefinedValue(items, i - 1, base);
    }
  }

  /** An enumeration over defined values that elaborates without an error: the values are
      representable and different; a constant keeps its value when its width changes; and an
      inferred value is its predecessor plus one, with the one exception. */
  lemma SoundNumbering(items: seq<Item>, base: Base)
    requires Wellformed(items, base) && OkUpTo(items, |items|, base)
    requires forall k | 0 <= k < |items| && items[k].given.Explicit? :: IsDefined(items[k].given.value.bits)
    ensures forall i: nat, j: nat | i < j < |items| ::
              Int(ValueAt(items, i, base), base.signed) != Int(ValueAt(items, j, base), base.signed)
    ensures forall i: nat | i < |items| :: Representable(Int(ValueAt(items, i, base), base.signed), base)
    ensures forall i: nat | i < |items| && items[i].given.Explicit? && |items[i].given.value.bits| != base.width ::
              Int(ValueAt(items, i, base), base.signed) == Int(items[i].given.value.bits, items[i].given.value.hasSign)
    ensures forall i: nat | 0 < i < |items| && items[i].given.Implicit? ::
              Int(ValueAt(items, i, base), base.signed) == Int(ValueAt(items, i - 1, base), base.signed) + 1
              <==> !(base.signed && base.width == 1 && Int(ValueAt(items, i - 1, base), base.signed) == 0)
    ensures |items| > 0 && items[0].given.Implicit? ==> Int(ValueAt(items, 0, base), base.signed) == 0
  {
    forall i: nat | i < |items| ensures Representable(Int(ValueAt(items, i, base), base.signed), base) {
      DefinedValue(items, i, base);
      IntRange(ValueAt(items, i, base), base.signed);
    }
    forall i: nat, j: nat | i < j < |items|
      ensures Int(ValueAt(items, i, base), base.signed) != Int(ValueAt(items, j, base), base.signed)
    {
      DefinedValue(items, i, base);
      DefinedValue(items, j, base);
      assert ItemOk(items, j, base);
      DifferentInts(ValueAt(items, i, base), ValueAt(items, j, base), base.signed);
    }
    forall i: nat | i < |items| && items[i].given.Explicit? && |items[i].given.value.bits| != base.width
      ensures Int(ValueAt(items, i, base), base.signed)
           == Int(items[i].given.value.bits, items[i].given.value.hasSign)
    {
      assert ItemOk(items, i, base);
      var v := items[i].given.value;
      if |v.bits| < base.width {
        PaddingKeepsValue(v, base.width, base.signed);
      } else {
        TrimIsExact(v, base);
      }
    }
    forall i: nat | 0 < i < |items| && items[i].given.Implicit?
      ensures Int(ValueAt(items, i, base), base.signed) == Int(ValueAt(items, i - 1, base), base.signed) + 1
              <==> !(base.signed && base.width == 1 && Int(ValueAt(items, i - 1, base), base.signed) == 0)
    {
      assert ItemOk(items, i, base);
      NextIsPlusOne(ValueAt(items, i - 1, base), base);
    }
    if |items| > 0 && items[0].given.Implicit? {
      NatIsZero(Fill(V0, base.width));
    }
  }

  /** The oddity at its smallest: two names over a signed base of width 1 are numbered 0 and -1,
      without an error. */
  lemma SignedBitOddity()
    ensures var base, items := Base(1, true, false), [Item(0, Implicit), Item(1, Implicit)];
      && Wellformed(items, base) && OkUpTo(items, 2, base)
      && Int(ValueAt(items, 0, base), true) == 0 && Int(ValueAt(items, 1, base), true) == -1
  {
    var base, items := Base(1, true, false), [Item(0, Implicit), Item(1, Implicit)];
    OneIs(1);
    assert Pow2(0) == 1 && Pow2(1) == 2;
    var zero, one := Fill(V0, 1), OneValue(1);
    assert zero == [V0] && one == [V1];
    assert ValueAt(items, 0, base) == zero && Nat(zero) == 0;
    assert ValueAt(items, 1, base) == Next(zero, base) == Add(zero, one, false) == [V1];
    assert Nat([V1]) == 1;
    assert ItemOk(items, 0, base) && ItemOk(items, 1, base);
  }

  lemma DifferentInts(a: Vec, b: Vec, signed: bool)
    requires |a| == |b| > 0 && IsDefined(a) && IsDefined(b) && a != b
    ensures Int(a, signed) != Int(b, signed)
  {
    if Nat(a) == Nat(b) {
      NatUnique(a, b);
    }
    NatBound(a);
    NatBound(b);
    NatTop(a);
    NatTop(b);
  }

  // ----- a reference: the numbers of the names

  /** The number lies in the range of the base type. */
  predicate InRange(x: int, base: Base)
    requires base.width > 0
  {
    if base.signed then -Pow2(base.width - 1) <= x && x < Pow2(base.width - 1) else 0 <= x && x < Pow2(base.width)
  }

  /** `n` is the number of a constant that is given as a value: as the base type reads it if it is as
      wide, and as it was written if it is not. */
  ghost predicate GivenNumber(given: Given, base: Base, n: int)
    requires given.Explicit?
  {
    var v := given.value;
    && (forall k | 0 <= k < |v.bits| :: v.bits[k] == V0 || v.bits[k] == V1)
    && (given.sizedLiteral ==> given.literalLen == base.width)
    && (if |v.bits| == base.width then
          n == Int(v.bits, base.signed)
          && (v.hasLen || base.signed || !v.hasSign || v.bits == [] || v.bits[|v.bits| - 1] != V1)
        else n == Int(v.bits, v.hasSign))
  }

  /** The names and the numbers `ns` are all different, the numbers are in range, and each is the one
      given, or one more than the number before it, or 0. */
  ghost predicate NumberedBy(items: seq<Item>, base: Base, ns: seq<int>)
    requires base.width > 0
  {
    && |ns| == |items|
    && (forall i, j | 0 <= i < j < |items| :: items[i].name != items[j].name && ns[i] != ns[j])
    && (forall i | 0 <= i < |items| :: InRange(ns[i], base))
    && (forall i | 0 <= i < |items| :: !items[i].given.NotConstant?)
    && (forall i | 0 <= i < |items| && items[i].given.Explicit? :: GivenNumber(items[i].given, base, ns[i]))
    && (forall i | 0 < i < |items| && items[i].given.Implicit? :: ns[i] == ns[i - 1] + 1)
    && (items != [] && items[0].given.Implicit? ==> ns[0] == 0)
  }

  lemma NegativeBelow(v: Vec, signed: bool)
    ensures Negative(v, signed) <==> Int(v, signed) < 0
  {
    NatBound(v);
  }

  lemma GivenFits(given: Given, base: Base, n: int)
    requires given.Explicit? && given.value.bits != [] && base.width > 0
    requires GivenNumber(given, base, n) && InRange(n, base)
    ensures ExplicitOk(given, base) && IsDefined(Resized(given.value, base.width))
    ensures Int(Resized(given.value, base.width), base.signed) == n
  {
    hide Int, Nat, Pow2, TrimsClean;
    var v := given.value;
    NegativeBelow(v.bits, v.hasSign);
    if |v.bits| < base.width {
      PaddingKeepsValue(v, base.width, base.signed);
    } else if |v.bits| > base.width {
      TrimIsExact(v, base);
      DefinedParts(v.bits, base.width);
    } else {
      assert v.bits[..base.width] == v.bits;
    }
  }

  lemma MaxIs(base: Base)
    requires base.width > 0
    ensures !(base.signed && base.width == 1) ==>
      MaxValue(base) == (if base.signed then Pow2(base.width - 1) else Pow2(base.width)) - 1
    ensures base.signed && base.width == 1 ==> MaxValue(base) == 2 && Pow2(base.width - 1) == 1
  {
    hide Int;
    OneIs(base.width);
    assert Pow2(0) == 1;
  }

  /** Names numbered so have these numbers as their values. */
  lemma {:induction false} NumberAt(items: seq<Item>, base: Base, ns: seq<int>, i: nat)
    requires Wellformed(items, base) && NumberedBy(items, base, ns) && i < |items|
    ensures IsDefined(ValueAt(items, i, base)) && Int(ValueAt(items, i, base), base.signed) == ns[i]
    ensures GivenOk(items, i, base)
  {
    hide Int, GivenNumber, ExplicitOk, Resized, Pow2, MaxValue;
    MaxIs(base);
    if items[i].given.Explicit? {
      GivenFits(items[i].given, base, ns[i]);
    } else if i == 0 {
      ZeroIs(base);
    } else {
      NumberAt(items, base, ns, i - 1);
      NextIsPlusOne(ValueAt(items, i - 1, base), base);
    }
  }

  lemma ZeroIs(base: Base)
    ensures IsDefined(Fill(V0, base.width)) && Int(Fill(V0, base.width), base.signed) == 0
  {
    NatIsZero(Fill(V0, base.width));
  }

  lemma AcceptsNumbering(items: seq<Item>, base: Base, ns: seq<int>)
    requires Wellformed(items, base) && NumberedBy(items, base, ns)
    ensures OkUpTo(items, |items|, base)
    ensures forall i: nat | i < |items| ::
      IsDefined(ValueAt(items, i, base)) && Int(ValueAt(items, i, base), base.signed) == ns[i]
  {
    hide Int, GivenOk, ValueAt;
    forall i: nat | i < |items|
      ensures IsDefined(ValueAt(items, i, base)) && Int(ValueAt(items, i, base), base.signed) == ns[i]
      ensures GivenOk(items, i, base)
    {
      NumberAt(items, base, ns, i);
    }
  }

  /** Over defined values, and but for the oddity, a numbering is all that it takes. */
  lemma AcceptedIff(items: seq<Item>, base: Base)
    requires Wellformed(items, base) && !(base.signed && base.width == 1)
    requires forall k | 0 <= k < |items| && items[k].given.Explicit? :: IsDefined(items[k].given.value.bits)
    ensures OkUpTo(items, |items|, base) <==> exists ns :: NumberedBy(items, base, ns)
  {
    hide OkUpTo;
    if ns :| NumberedBy(items, base, ns) {
      AcceptsNumbering(items, base, ns);
    }
    if OkUpTo(items, |items|, base) {
      var ns := seq(|items|, i requires 0 <= i < |items| => Int(ValueAt(items, i, base), base.signed));
      NumbersAre(items, base, ns);
    }
  }

  lemma NumbersAre(items: seq<Item>, base: Base, ns: seq<int>)
    requires Wellformed(items, base) && !(base.signed && base.width == 1)
    requires forall k | 0 <= k < |items| && items[k].given.Explicit? :: IsDefined(items[k].given.value.bits)
    requires OkUpTo(items, |items|, base)
    requires |ns| == |items| && forall i: nat | i < |items| :: ns[i] == Int(ValueAt(items, i, base), base.signed)
    ensures NumberedBy(items, base, ns)
  {
    hide Int, MaxValue, Next, Pow2, TrimsClean;
    SoundNumbering(items, base);
    forall i: nat | i < |items|
      ensures !items[i].given.NotConstant?
      ensures items[i].given.Explicit? ==> GivenNumber(items[i].given, base, ns[i])
    {
      assert ItemOk(items, i, base);
      if items[i].given.Explicit? {
        var v := items[i].given.value;
        assert |v.bits| == base.width ==> v.bits[..base.width] == v.bits;
      }
    }
    forall i: nat, j: nat | i < j < |items| ensures items[i].name != items[j].name {
      assert ItemOk(items, j, base);
    }
  }

  /** How a constant that is too narrow is extended. */
  lemma PadTable(v: Verinum)
    requires v.bits != []
    ensures var top := v.bits[|v.bits| - 1];
      PadBit(v) == if v.hasSign then top else if top == V0 || top == V1 || v.hasLen then V0 else top
  {
  }

  // ----- the elaborator

  /** What can be wrong with a name. */
  datatype Mistake =
    | NotAConstant  // what follows it is not constant
    | Uninferable   // it has no constant and the value before it is undefined
    | Undefined     // its constant has bits that a 2-state type cannot hold
    | WrongSize     // its constant was written with another size
    | BelowZero     // its constant is negative and the type is unsigned
    | BadCut        // the bits cut off its constant are not copies of the top bit
    | CutOne        // a 1 is cut off its unsigned constant
    | Overflow      // it has no constant and follows the largest value
    | SameValue     // an earlier name has its value
    | SameName      // an earlier name is called the same

  /** What is wrong with a constant in itself. */
  ghost predicate Misfit(given: Given, base: Base, m: Mistake)
    requires base.width > 0 && (given.Explicit? ==> given.value.bits != [])
  {
    given.Explicit? && var v := given.value; var wide := |v.bits| > base.width;
    match m
    case Undefined => base.twoState && exists k :: 0 <= k < |v.bits| && v.bits[k] != V0 && v.bits[k] != V1
    case WrongSize => given.sizedLiteral && given.literalLen != base.width
    case BelowZero =>
      !base.signed && v.hasSign && v.bits[|v.bits| - 1] == V1 && (|v.bits| != base.width || !v.hasLen)
    case BadCut =>
      && wide
      && (exists k :: base.width <= k < |v.bits| && v.bits[k] != v.bits[base.width - 1])
      && (base.signed || exists k :: base.width <= k < |v.bits| && v.bits[k] != V0)
    case CutOne => wide && !v.hasSign && v.bits[base.width] == V1
    case _ => false
  }

  /** `x` is added to a set if `c`. */
  lemma Added<T>(s: set<T>, c: bool, x: T) returns (t: set<T>)
    requires x !in s
    ensures forall y :: y in t <==> y in s || (c && y == x)
    ensures |t| == |s| + if c then 1 else 0
  {
    t := if c then s + {x} else s;
  }

  lemma MisfitsCounted(given: Given, base: Base)
    requires given.Explicit? && given.value.bits != [] && base.width > 0
    ensures FitFaults(given, base) == |set m: Mistake | Misfit(given, base, m)|
  {
    MisfitsAre(given, base);
    hide Misfit, IsDefined, CopiesTop, Stops, Negative;
    var all := Added({}, Misfit(given, base, Undefined), Undefined);
    all := Added(all, Misfit(given, base, WrongSize), WrongSize);
    all := Added(all, Misfit(given, base, BelowZero), BelowZero);
    all := Added(all, Misfit(given, base, BadCut), BadCut);
    all := Added(all, Misfit(given, base, CutOne), CutOne);
    assert all == set m: Mistake | Misfit(given, base, m);
  }

  lemma MisfitsAre(given: Given, base: Base)
    requires given.Explicit? && given.value.bits != [] && base.width > 0
    ensures var v := given.value;
      && (Misfit(given, base, Undefined) <==> base.twoState && !IsDefined(v.bits))
      && (Misfit(given, base, WrongSize) <==> given.sizedLiteral && given.literalLen != base.width)
      && (Misfit(given, base, BelowZero) <==>
            !base.signed && Negative(v.bits, v.hasSign) && (|v.bits| != base.width || !v.hasLen))
      && (Misfit(given, base, BadCut) <==> |v.bits| > base.width && !CopiesTop(v, base))
      && (Misfit(given, base, CutOne) <==> Stops(given, base))
    ensures forall m | Misfit(given, base, m) :: m in {Undefined, WrongSize, BelowZero, BadCut, CutOne}
  {
  }

  /** The number of errors of an explicit constant. */
  function FitFaults(given: Given, base: Base): (r: nat)
    requires given.Explicit? && given.value.bits != [] && base.width > 0
    ensures r == 0 <==> ExplicitOk(given, base)
  {
    var v := given.value;
    (if base.twoState && !IsDefined(v.bits) then 1 else 0)
    + (if given.sizedLiteral && given.literalLen != base.width then 1 else 0)
    + (if !base.signed && Negative(v.bits, v.hasSign) && (|v.bits| != base.width || !v.hasLen) then 1 else 0)
    + (if |v.bits| > base.width && !CopiesTop(v, base) then 1 else 0)
    + (if Stops(given, base) then 1 else 0)
  }

  /** The 1 just above the top of the type is cut off an unsigned constant: this ends the
      enumeration. */
  predicate Stops(given: Given, base: Base) {
    given.Explicit? && |given.value.bits| > base.width && !given.value.hasSign
    && given.value.bits[base.width] == V1
  }

  /** Check an explicit constant and fit it to the enumeration. `stop` is set for a constant
      whose error ends the elaboration of the enumeration. */
  method FitExplicit(given: Given, base: Base) returns (bits: Vec, errors: nat, stop: bool)
    requires given.Explicit? && given.value.bits != [] && base.width > 0
    ensures errors == 0 <==> ExplicitOk(given, base)
    ensures errors == FitFaults(given, base) == |set m: Mistake | Misfit(given, base, m)|
    ensures bits == Resized(given.value, base.width)
    ensures stop == Stops(given, base)
  {
    MisfitsCounted(given, base);
    var v := given.value;
    bits := v.bits;
    errors, stop := 0, false;
    if base.twoState && !IsDefined(bits) {
      errors := errors + 1;
    }
    if given.sizedLiteral && given.literalLen != base.width {
      errors := errors + 1;
    }
    if (|bits| != base.width || !v.hasLen) && !base.signed && Negative(bits, v.hasSign) {
      errors := errors + 1;
    }
    if |bits| < base.width {
      bits := bits + Fill(PadBit(v), base.width - |bits|);
    }
    if |bits| > base.width {
      var trimErrors := CheckTrim(v, base);
      errors := errors + trimErrors;
      if !v.hasSign && bits[base.width] == V1 {
        errors := errors + 1;
        stop := true;
      }
      bits := bits[..base.width];
    }
  }

  /** Compare the bits to be cut off with the top bit that stays. */
  method CheckTrim(v: Verinum, base: Base) returns (errors: nat)
    requires 0 < base.width < |v.bits|
    ensures errors == if CopiesTop(v, base) then 0 else 1
  {
    errors := 0;
    var checkWidth := base.width - 1;
    for idx := base.width to |v.bits|
      invariant errors == 0
      invariant checkWidth == base.width - 1 || (!base.signed && checkWidth == base.width < idx)
      invariant checkWidth == base.width ==> v.bits[base.width] == V0 != v.bits[base.width - 1]
      invariant forall k | base.width <= k < idx :: v.bits[k] == v.bits[checkWidth]
    {
      if v.bits[idx] != v.bits[checkWidth] {
        if !base.signed && idx == base.width && v.bits[idx] == V0 {
          checkWidth := checkWidth + 1;
          continue;
        }
        errors := errors + 1;
        assert v.bits[base.width] == v.bits[base.width - 1] || idx == base.width || checkWidth == base.width;
        assert !AllFrom(v.bits, base.width, v.bits[base.width - 1]);
        assert !base.signed ==> !AllFrom(v.bits, base.width, V0);
        break;
      }
    }
    if errors == 0 {
      assert AllFrom(v.bits, base.width, v.bits[checkWidth]);
    }
  }

  // ----- every enumeration, whatever its errors

  /** What a name came to: nothing, or a value. */
  datatype Got = Nothing | Value(bits: Vec)

  /** Name `j` is the latest of `past` with a value. */
  ghost predicate LastValue(past: seq<Got>, j: int) {
    0 <= j < |past| && past[j].Value? && forall k | j < k < |past| :: past[k].Nothing?
  }

  /** `b` is the next number above `a`, or 0 above the last. */
  ghost predicate OneMore(a: Vec, b: Vec) {
    |a| == |b| && IsDefined(b) && Nat(b) == (Nat(a) + 1) % Pow2(|a|)
  }

  /** What the next name comes to after `past`: its constant; without one, the number above the latest
      value, or nothing if that is undefined, or 0 if there is none yet. */
  ghost predicate Valued(items: seq<Item>, base: Base, past: seq<Got>, x: Got)
    requires Wellformed(items, base) && |past| < |items|
  {
    match items[|past|].given
    case NotConstant => x.Nothing?
    case Explicit(v, _, _) => x == Value(Resized(v, base.width))
    case Implicit =>
      && ((forall j | 0 <= j < |past| :: past[j].Nothing?) ==> x == Value(Fill(V0, base.width)))
      && forall j | LastValue(past, j) ::
           if IsDefined(past[j].bits) then x.Value? && OneMore(past[j].bits, x.bits) else x.Nothing?
  }

  /** The largest value is among `past`, and since then no name up to the next has a constant. */
  ghost predicate PastMax(items: seq<Item>, base: Base, past: seq<Got>)
    requires base.width > 0 && |past| < |items|
  {
    exists j :: 0 <= j < |past| && past[j].Value? && IsMax(past[j].bits, base)
             && forall k | j < k <= |past| :: !items[k].given.Explicit?
  }

  /** No name of `past` with a value is called `name`. */
  ghost predicate Unused(items: seq<Item>, past: seq<Got>, name: nat)
    requires |past| <= |items|
  {
    forall j | 0 <= j < |past| && past[j].Value? :: items[j].name != name
  }

  /** Some name of `past` that entered the enumeration has this value. */
  ghost predicate Taken(items: seq<Item>, past: seq<Got>, bits: Vec)
    requires |past| <= |items|
  {
    exists j :: 0 <= j < |past| && past[j] == Value(bits) && Unused(items, past[..j], items[j].name)
  }

  /** The errors of the next name after `past`. */
  ghost function NameFaults(items: seq<Item>, base: Base, past: seq<Got>, x: Got): nat
    requires Wellformed(items, base) && |past| < |items|
  {
    if x.Nothing? then 1
    else
      (if items[|past|].given.Explicit? then FitFaults(items[|past|].given, base) else 0)
      + (if PastMax(items, base, past) then 1 else 0)
      + (if Taken(items, past, x.bits) then 1 else 0)
      + (if Unused(items, past, items[|past|].name) then 0 else 1)
  }

  ghost function Faults(items: seq<Item>, base: Base, got: seq<Got>): nat
    requires Wellformed(items, base) && |got| <= |items|
  {
    if got == [] then 0
    else
      var past, x := got[..|got| - 1], got[|got| - 1];
      Faults(items, base, past) + NameFaults(items, base, past, x)
  }

  /** Each name with a value enters the enumeration the first time. */
  ghost function Entered(items: seq<Item>, got: seq<Got>): seq<Member>
    requires |got| <= |items|
  {
    if got == [] then []
    else
      var past, x := got[..|got| - 1], got[|got| - 1];
      var name := items[|past|].name;
      Entered(items, past) + if x.Value? && Unused(items, past, name) then [Member(name, x.bits)] else []
  }

  ghost predicate Named(members: seq<Member>, name: nat) {
    exists k :: 0 <= k < |members| && members[k].name == name
  }

  ghost predicate Valuing(members: seq<Member>, bits: Vec) {
    exists k :: 0 <= k < |members| && members[k].bits == bits
  }

  lemma Appended(members: seq<Member>, m: Member, name: nat, bits: Vec)
    ensures Named(members + [m], name) <==> Named(members, name) || m.name == name
    ensures Valuing(members + [m], bits) <==> Valuing(members, bits) || m.bits == bits
  {
    var all := members + [m];
    assert all[|members|] == m && forall k | 0 <= k < |members| :: all[k] == members[k];
  }

  /** The names and the values of the members are those that entered. */
  lemma {:induction false} EnteredAre(items: seq<Item>, got: seq<Got>, name: nat, bits: Vec)
    requires |got| <= |items|
    ensures Named(Entered(items, got), name) <==> !Unused(items, got, name)
    ensures Valuing(Entered(items, got), bits) <==> Taken(items, got, bits)
  {
    hide Named, Valuing;
    if got == [] {
      assert !Named([], name) && !Valuing([], bits) by { NoneAtAll(name, bits); }
    } else {
      var past, x := got[..|got| - 1], got[|got| - 1];
      EnteredAre(items, past, name, bits);
      Appended(Entered(items, past), Member(items[|past|].name, if x.Value? then x.bits else []), name, bits);
      assert Entered(items, past) + [] == Entered(items, past);
      UnusedNext(items, past, x, name);
      TakenNext(items, past, x, bits);
      assert got == past + [x];
      hide Unused, Taken;
      if x.Value? && !Unused(items, past, items[|past|].name) && name == items[|past|].name {
        assert Named(Entered(items, past), name);
      }
    }
  }

  lemma NoneAtAll(name: nat, bits: Vec)
    ensures !Named([], name) && !Valuing([], bits)
  {
  }

  lemma UnusedNext(items: seq<Item>, past: seq<Got>, x: Got, name: nat)
    requires |past| < |items|
    ensures Unused(items, past + [x], name)
      <==> Unused(items, past, name) && !(x.Value? && items[|past|].name == name)
  {
    var all := past + [x];
    assert all[|past|] == x && forall j | 0 <= j < |past| :: all[j] == past[j];
  }

  lemma TakenNext(items: seq<Item>, past: seq<Got>, x: Got, bits: Vec)
    requires |past| < |items|
    ensures Taken(items, past + [x], bits)
      <==> Taken(items, past, bits) || (x == Value(bits) && Unused(items, past, items[|past|].name))
  {
    hide Unused;
    var all := past + [x];
    assert all[|past|] == x && all[..|past|] == past;
    assert forall j | 0 <= j < |past| :: all[j] == past[j] && all[..j] == past[..j];
  }

  /** What is wrong with name `i`, of which `got[..i]` come before. */
  ghost predicate Mistaken(items: seq<Item>, base: Base, got: seq<Got>, i: nat, m: Mistake)
    requires Wellformed(items, base) && i <= |got| <= |items| && i < |items|
  {
    var given, past, has := items[i].given, got[..i], i < |got| && got[i].Value?;
    match m
    case NotAConstant => given.NotConstant?
    case Uninferable => given.Implicit? && !has
    case Overflow => has && PastMax(items, base, past)
    case SameValue => has && Taken(items, past, got[i].bits)
    case SameName => has && !Unused(items, past, items[i].name)
    case _ => Misfit(given, base, m)
  }

  ghost function Mistakes(items: seq<Item>, base: Base, got: seq<Got>, n: nat): set<(nat, Mistake)>
    requires Wellformed(items, base) && |got| <= |items| && n <= |items| && n <= |got| + 1
  {
    set i, m: Mistake | 0 <= i < n && Mistaken(items, base, got, i, m) :: (i, m)
  }

  /** The outcome of an enumeration: every name up to a constant that stops it came to what it must, the
      members are the names that entered, and every mistake in a name is one error. */
  ghost predicate Reckoned(items: seq<Item>, base: Base, got: seq<Got>, members: seq<Member>, errors: nat)
    requires Wellformed(items, base)
  {
    && AllValued(items, base, got)
    && (|got| < |items| ==> Stops(items[|got|].given, base))
    && members == Entered(items, got)
    && errors == |Mistakes(items, base, got, if |got| < |items| then |got| + 1 else |got|)|
  }

  ghost predicate AllValued(items: seq<Item>, base: Base, got: seq<Got>)
    requires Wellformed(items, base)
  {
    && |got| <= |items|
    && forall i | 0 <= i < |got| :: !Stops(items[i].given, base) && Valued(items, base, got[..i], got[i])
  }

  /** An enumeration has one outcome. */
  lemma ReckonedOnce(items: seq<Item>, base: Base, got: seq<Got>, members: seq<Member>, errors: nat,
      got': seq<Got>, members': seq<Member>, errors': nat)
    requires Wellformed(items, base)
    requires Reckoned(items, base, got, members, errors) && Reckoned(items, base, got', members', errors')
    ensures got == got' && members == members' && errors == errors'
  {
    NotLonger(items, base, got, members, errors, got');
    NotLonger(items, base, got', members', errors', got);
    ValuedOnce(items, base, got, got', |got|);
    assert got == got[..|got|] && got' == got'[..|got|];
  }

  lemma NotLonger(items: seq<Item>, base: Base, got: seq<Got>, members: seq<Member>, errors: nat, got': seq<Got>)
    requires Wellformed(items, base) && Reckoned(items, base, got, members, errors) && AllValued(items, base, got')
    ensures |got'| <= |got|
  {
    hide Stops, Valued, FitFaults, Entered, Faults;
  }

  lemma {:induction false} ValuedOnce(items: seq<Item>, base: Base, got: seq<Got>, got': seq<Got>, n: nat)
    requires Wellformed(items, base) && AllValued(items, base, got) && AllValued(items, base, got')
    requires n <= |got| && n <= |got'|
    ensures got[..n] == got'[..n]
  {
    hide Stops, Valued;
    if n == 0 {
    } else {
      ValuedOnce(items, base, got, got', n - 1);
      NextOnce(items, base, got[..n - 1], got[n - 1], got'[n - 1]);
      assert got[..n] == got[..n - 1] + [got[n - 1]] && got'[..n] == got'[..n - 1] + [got'[n - 1]];
    }
  }

  lemma NextOnce(items: seq<Item>, base: Base, past: seq<Got>, x: Got, y: Got)
    requires Wellformed(items, base) && |past| < |items|
    requires Valued(items, base, past, x) && Valued(items, base, past, y)
    ensures x == y
  {
    hide Resized, Nat, Pow2;
    if items[|past|].given.Implicit? && exists k :: 0 <= k < |past| && past[k].Value? {
      var j := LatestOf(past);
      if IsDefined(past[j].bits) {
        NatUnique(x.bits, y.bits);
      }
    }
  }

  lemma {:induction false} LatestOf(past: seq<Got>) returns (j: nat)
    requires exists k :: 0 <= k < |past| && past[k].Value?
    ensures LastValue(past, j)
  {
    if past[|past| - 1].Value? {
      j := |past| - 1;
    } else {
      j := LatestOf(past[..|past| - 1]);
    }
  }

  /** The state of the elaborator after the names `got`. */
  ghost predicate Underway(items: seq<Item>, base: Base, got: seq<Got>, cur: Vec, wrapped: bool,
      members: seq<Member>, errors: nat)
    requires Wellformed(items, base)
  {
    && AllValued(items, base, got)
    && members == Entered(items, got)
    && errors == Faults(items, base, got)
    && Coming(base, got, cur)
    && (wrapped <==> MaxSince(items, base, got))
  }

  ghost predicate Coming(base: Base, got: seq<Got>, cur: Vec) {
    && |cur| == base.width
    && ((forall j | 0 <= j < |got| :: got[j].Nothing?) ==> cur == Fill(V0, base.width))
    && forall j | LastValue(got, j) ::
         if IsDefined(got[j].bits) then OneMore(got[j].bits, cur) else !IsDefined(cur)
  }

  ghost predicate MaxSince(items: seq<Item>, base: Base, got: seq<Got>)
    requires base.width > 0 && |got| <= |items|
  {
    exists j :: 0 <= j < |got| && got[j].Value? && IsMax(got[j].bits, base)
             && forall k | j < k < |got| :: !items[k].given.Explicit?
  }

  lemma {:induction false} MistakesCounted(items: seq<Item>, base: Base, got: seq<Got>, n: nat)
    requires Wellformed(items, base) && AllValued(items, base, got) && n <= |got|
    ensures |Mistakes(items, base, got, n)| == Faults(items, base, got[..n])
  {
    hide Mistaken, Valued, Stops, NameFaults;
    if n == 0 {
      assert Mistakes(items, base, got, n) == {};
    } else {
      MistakesCounted(items, base, got, n - 1);
      assert got[..n][..n - 1] == got[..n - 1];
      NameCounted(items, base, got, n - 1, Mistakes(items, base, got, n - 1));
      assert Mistakes(items, base, got, n)
          == Mistakes(items, base, got, n - 1) + MistakesOf(items, base, got, n - 1);
    }
  }

  ghost function MistakesOf(items: seq<Item>, base: Base, got: seq<Got>, i: nat): set<(nat, Mistake)>
    requires Wellformed(items, base) && i <= |got| <= |items| && i < |items|
  {
    set m: Mistake | Mistaken(items, base, got, i, m) :: (i, m)
  }

  /** The mistakes in one name, on top of those in others. */
  lemma NameCounted(items: seq<Item>, base: Base, got: seq<Got>, i: nat, before: set<(nat, Mistake)>)
    requires Wellformed(items, base) && i < |got| <= |items| && Valued(items, base, got[..i], got[i])
    requires forall p | p in before :: p.0 != i
    ensures |before + MistakesOf(items, base, got, i)|
         == |before| + NameFaults(items, base, got[..i], got[i])
  {
    hide Valued, Misfit, FitFaults, PastMax, Taken, Unused;
    ValuedKind(items, base, got[..i], got[i]);
    MistakesAre(items, base, got, i);
    hide Mistaken;
    var all := MisfitPairs(items, base, i, before);
    all := Added(all, Mistaken(items, base, got, i, NotAConstant), (i, NotAConstant));
    all := Added(all, Mistaken(items, base, got, i, Uninferable), (i, Uninferable));
    all := Added(all, Mistaken(items, base, got, i, Overflow), (i, Overflow));
    all := Added(all, Mistaken(items, base, got, i, SameValue), (i, SameValue));
    all := Added(all, Mistaken(items, base, got, i, SameName), (i, SameName));
    assert all == before + MistakesOf(items, base, got, i);
  }

  /** The mistakes that are misfits, and the others. */
  lemma MistakesAre(items: seq<Item>, base: Base, got: seq<Got>, i: nat)
    requires Wellformed(items, base) && i < |got| <= |items|
    ensures var given, past, x := items[i].given, got[..i], got[i];
      && (Mistaken(items, base, got, i, NotAConstant) <==> given.NotConstant?)
      && (Mistaken(items, base, got, i, Uninferable) <==> given.Implicit? && x.Nothing?)
      && (Mistaken(items, base, got, i, Overflow) <==> x.Value? && PastMax(items, base, past))
      && (Mistaken(items, base, got, i, SameValue) <==> x.Value? && Taken(items, past, x.bits))
      && (Mistaken(items, base, got, i, SameName) <==> x.Value? && !Unused(items, past, items[i].name))
    ensures forall m | m !in {NotAConstant, Uninferable, Overflow, SameValue, SameName} ::
      Mistaken(items, base, got, i, m) <==> Misfit(items[i].given, base, m)
  {
    hide Misfit, PastMax, Taken, Unused;
  }

  lemma ValuedKind(items: seq<Item>, base: Base, past: seq<Got>, x: Got)
    requires Wellformed(items, base) && |past| < |items| && Valued(items, base, past, x)
    ensures items[|past|].given.NotConstant? ==> x.Nothing?
    ensures items[|past|].given.Explicit? ==> x.Value?
  {
  }

  /** The misfits of name `i` on top of `before`. */
  lemma MisfitPairs(items: seq<Item>, base: Base, i: nat, before: set<(nat, Mistake)>)
    returns (all: set<(nat, Mistake)>)
    requires Wellformed(items, base) && i < |items| && forall p | p in before :: p.0 != i
    ensures forall p :: p in all <==> p in before || (p.0 == i && Misfit(items[i].given, base, p.1))
    ensures forall m | m in {NotAConstant, Uninferable, Overflow, SameValue, SameName} ::
      !Misfit(items[i].given, base, m)
    ensures |all| == |before|
      + if items[i].given.Explicit? then FitFaults(items[i].given, base) else 0
  {
    var given := items[i].given;
    if given.Explicit? {
      MisfitsAre(given, base);
    }
    assert !given.Explicit? ==> forall m :: !Misfit(given, base, m);
    hide Misfit, IsDefined, CopiesTop, Stops, Negative;
    all := Added(before, Misfit(given, base, Undefined), (i, Undefined));
    all := Added(all, Misfit(given, base, WrongSize), (i, WrongSize));
    all := Added(all, Misfit(given, base, BelowZero), (i, BelowZero));
    all := Added(all, Misfit(given, base, BadCut), (i, BadCut));
    all := Added(all, Misfit(given, base, CutOne), (i, CutOne));
  }

  lemma Finished(items: seq<Item>, base: Base, got: seq<Got>, cur: Vec, wrapped: bool, members: seq<Member>,
      errors: nat)
    requires Wellformed(items, base) && Underway(items, base, got, cur, wrapped, members, errors)
    ensures |got| == |items| ==> Reckoned(items, base, got, members, errors)
    ensures |got| < |items| && Stops(items[|got|].given, base) ==> FitFaults(items[|got|].given, base) > 0
    ensures |got| < |items| && Stops(items[|got|].given, base) ==>
      Reckoned(items, base, got, members, errors + FitFaults(items[|got|].given, base))
  {
    hide AllValued, Faults, Entered, Coming, MaxSince, FitFaults, Stops;
    MistakesCounted(items, base, got, |got|);
    assert got[..|got|] == got;
    if |got| < |items| && Stops(items[|got|].given, base) {
      StopCounted(items, base, got);
    }
  }

  /** A constant that ends the enumeration has only what is wrong with itself. */
  lemma StopCounted(items: seq<Item>, base: Base, got: seq<Got>)
    requires Wellformed(items, base) && |got| < |items| && Stops(items[|got|].given, base)
    ensures FitFaults(items[|got|].given, base) > 0
    ensures |Mistakes(items, base, got, |got| + 1)|
         == |Mistakes(items, base, got, |got|)| + FitFaults(items[|got|].given, base)
  {
    var i := |got|;
    assert items[i].given.Explicit? && FitFaults(items[i].given, base) > 0;
    hide Misfit, FitFaults, Stops, PastMax, Taken, Unused;
    var all := MisfitPairs(items, base, i, Mistakes(items, base, got, i));
    assert all == Mistakes(items, base, got, i + 1);
  }

  lemma Started(items: seq<Item>, base: Base)
    requires Wellformed(items, base)
    ensures Underway(items, base, [], Fill(V0, base.width), false, [], 0)
  {
  }

  lemma AllValuedStep(items: seq<Item>, base: Base, got: seq<Got>, x: Got)
    requires Wellformed(items, base) && AllValued(items, base, got) && |got| < |items|
    requires !Stops(items[|got|].given, base) && Valued(items, base, got, x)
    ensures AllValued(items, base, got + [x])
  {
    hide Stops, Valued;
    var all := got + [x];
    assert all[..|got|] == got;
    forall i | 0 <= i < |all| ensures !Stops(items[i].given, base) && Valued(items, base, all[..i], all[i]) {
      if i < |got| {
        assert all[..i] == got[..i];
      }
    }
  }

  lemma Counted(items: seq<Item>, base: Base, got: seq<Got>, x: Got)
    requires Wellformed(items, base) && |got| < |items|
    ensures Faults(items, base, got + [x]) == Faults(items, base, got) + NameFaults(items, base, got, x)
    ensures Entered(items, got + [x]) == Entered(items, got)
      + if x.Value? && Unused(items, got, items[|got|].name) then [Member(items[|got|].name, x.bits)] else []
  {
    hide NameFaults, Unused;
    assert (got + [x])[..|got|] == got;
  }

  /** A name that comes to nothing. */
  lemma NothingStep(items: seq<Item>, base: Base, got: seq<Got>, cur: Vec, wrapped: bool, members: seq<Member>,
      errors: nat)
    requires Wellformed(items, base) && |got| < |items|
    requires Underway(items, base, got, cur, wrapped, members, errors)
    requires items[|got|].given.NotConstant? || (items[|got|].given.Implicit? && !IsDefined(cur))
    ensures Underway(items, base, got + [Nothing], cur, wrapped, members, errors + 1)
  {
    hide IsDefined, Coming, MaxSince, Valued, Entered, Faults, AllValued;
    ComingNothing(items, base, got, cur);
    AllValuedStep(items, base, got, Nothing);
    Counted(items, base, got, Nothing);
    MaxNothing(items, base, got);
  }

  lemma ComingNothing(items: seq<Item>, base: Base, got: seq<Got>, cur: Vec)
    requires Wellformed(items, base) && |got| < |items| && Coming(base, got, cur)
    ensures Coming(base, got + [Nothing], cur)
    ensures items[|got|].given.NotConstant? || (items[|got|].given.Implicit? && !IsDefined(cur)) ==>
      Valued(items, base, got, Nothing)
  {
    hide IsDefined, Nat, Pow2;
    var all := got + [Nothing];
    assert forall j | 0 <= j < |got| :: all[j] == got[j];
    assert forall j | LastValue(all, j) :: LastValue(got, j);
    FillDefined(base.width);
  }

  lemma MaxNothing(items: seq<Item>, base: Base, got: seq<Got>)
    requires Wellformed(items, base) && |got| < |items| && !items[|got|].given.Explicit?
    ensures MaxSince(items, base, got + [Nothing]) <==> MaxSince(items, base, got)
  {
    hide IsMax;
    var all := got + [Nothing];
    assert forall j | 0 <= j < |got| :: all[j] == got[j];
  }

  lemma FillDefined(width: nat)
    ensures IsDefined(Fill(V0, width))
  {
  }

  lemma OneMoreIs(bits: Vec, base: Base)
    requires |bits| == base.width > 0 && IsDefined(bits)
    ensures OneMore(bits, Add(bits, OneValue(base.width), false))
  {
    hide Nat, Add, Pow2;
    var sum := Add(bits, OneValue(base.width), false);
    OneIs(base.width);
    var out := AddIsSum(bits, OneValue(base.width), false);
    NatBound(sum);
    NatBound(bits);
    assert Nat(sum) + Pow2(base.width) * out == Nat(bits) + 1;
    RemainderIs(Nat(sum), Pow2(base.width), out);
  }

  lemma RemainderIs(n: nat, p: nat, out: nat)
    requires n < p && out <= 1
    ensures (n + p * out) % p == n
  {
  }

  /** The members and the errors once a name has come to a value. */
  ghost function Extended(members: seq<Member>, name: nat, bits: Vec): seq<Member> {
    if Named(members, name) then members else members + [Member(name, bits)]
  }

  ghost function Charged(item: Item, base: Base, wrapped: bool, members: seq<Member>, bits: Vec): nat
    requires base.width > 0 && (item.given.Explicit? ==> item.given.value.bits != [])
  {
    (if item.given.Explicit? then FitFaults(item.given, base) else if wrapped then 1 else 0)
    + (if Valuing(members, bits) then 1 else 0)
    + (if Named(members, item.name) then 1 else 0)
  }

  /** The value of a name: its constant, or the one to come. */
  ghost predicate ComesTo(item: Item, base: Base, cur: Vec, bits: Vec)
    requires base.width > 0 && (item.given.Explicit? ==> item.given.value.bits != [])
  {
    match item.given
    case NotConstant => false
    case Explicit(v, _, _) => bits == Resized(v, base.width) && !Stops(item.given, base)
    case Implicit => bits == cur && IsDefined(cur)
  }

  lemma ValuedNow(items: seq<Item>, base: Base, got: seq<Got>, cur: Vec, bits: Vec)
    requires Wellformed(items, base) && |got| < |items| && Coming(base, got, cur)
    requires ComesTo(items[|got|], base, cur, bits)
    ensures Valued(items, base, got, Value(bits)) && |bits| == base.width && !Stops(items[|got|].given, base)
  {
    hide Resized, IsDefined, Nat, Pow2;
  }

  lemma FollowingComes(base: Base, got: seq<Got>, bits: Vec)
    requires |bits| == base.width > 0
    ensures Coming(base, got + [Value(bits)], Next(bits, base))
  {
    hide OneMore, IsDefined, Add;
    var all := got + [Value(bits)];
    assert all[|got|].Value?;
    assert forall j | LastValue(all, j) :: j == |got|;
    if IsDefined(bits) {
      OneMoreIs(bits, base);
    }
  }

  lemma MaxNow(items: seq<Item>, base: Base, got: seq<Got>, bits: Vec)
    requires Wellformed(items, base) && |got| < |items|
    ensures MaxSince(items, base, got + [Value(bits)])
      <==> IsMax(bits, base) || (MaxSince(items, base, got) && !items[|got|].given.Explicit?)
    ensures PastMax(items, base, got) <==> MaxSince(items, base, got) && !items[|got|].given.Explicit?
  {
    hide IsMax;
    var all := got + [Value(bits)];
    assert forall j | 0 <= j < |got| :: all[j] == got[j];
    if IsMax(bits, base) {
      assert all[|got|].Value? && IsMax(all[|got|].bits, base);
    }
    if MaxSince(items, base, got) && !items[|got|].given.Explicit? {
      var j :| 0 <= j < |got| && got[j].Value? && IsMax(got[j].bits, base)
            && forall k | j < k < |got| :: !items[k].given.Explicit?;
      assert all[j].Value? && IsMax(all[j].bits, base);
    }
  }

  /** A name that comes to a value. */
  lemma ValueStep(items: seq<Item>, base: Base, got: seq<Got>, cur: Vec, wrapped: bool, members: seq<Member>,
      errors: nat, bits: Vec)
    requires Wellformed(items, base) && |got| < |items| && |bits| == base.width
    requires Underway(items, base, got, cur, wrapped, members, errors)
    requires ComesTo(items[|got|], base, cur, bits)
    ensures var item := items[|got|];
      Underway(items, base, got + [Value(bits)], Next(bits, base),
        IsMax(bits, base) || (wrapped && !item.given.Explicit?), Extended(members, item.name, bits),
        errors + Charged(item, base, wrapped, members, bits))
  {
    hide Unused, Taken, Entered, Faults, FitFaults, AllValued, Valued, Coming, MaxSince, PastMax, IsMax, Next,
      ComesTo, Stops, Named, Valuing;
    EnteredAre(items, got, items[|got|].name, bits);
    ValuedNow(items, base, got, cur, bits);
    AllValuedStep(items, base, got, Value(bits));
    Counted(items, base, got, Value(bits));
    FollowingComes(base, got, bits);
    MaxNow(items, base, got, bits);
  }

  ghost predicate HaveNumbers(items: seq<Item>, base: Base, members: seq<Member>, ns: seq<int>) {
    && |members| == |items| == |ns|
    && forall i | 0 <= i < |items| ::
         members[i].name == items[i].name && IsDefined(members[i].bits) && |members[i].bits| == base.width
         && Int(members[i].bits, base.signed) == ns[i]
  }

  predicate AllDefined(items: seq<Item>) {
    forall k | 0 <= k < |items| && items[k].given.Explicit? :: IsDefined(items[k].given.value.bits)
  }

  /** Whatever can be numbered is, with these numbers and without an error; and nothing else is, over
      defined values and but for the oddity. */
  ghost predicate Accepts(items: seq<Item>, base: Base, members: seq<Member>, errors: nat)
    requires base.width > 0
  {
    && (forall ns | NumberedBy(items, base, ns) :: errors == 0 && HaveNumbers(items, base, members, ns))
    && (!(base.signed && base.width == 1) && AllDefined(items) ==>
          (errors == 0 <==> exists ns :: NumberedBy(items, base, ns)))
  }

  lemma NumbersHave(items: seq<Item>, base: Base, members: seq<Member>, errors: nat)
    requires Wellformed(items, base) && (errors == 0 <==> OkUpTo(items, |items|, base))
    requires errors == 0 ==> Numbered(items, |items|, members, base)
    ensures Accepts(items, base, members, errors)
  {
    hide OkUpTo, NumberedBy, ValueAt, Int;
    forall ns | NumberedBy(items, base, ns) ensures errors == 0 && HaveNumbers(items, base, members, ns) {
      AcceptsNumbering(items, base, ns);
      SameLength(items, base, ns);
    }
    if !(base.signed && base.width == 1) && AllDefined(items) {
      AcceptedIff(items, base);
    }
  }

  lemma SameLength(items: seq<Item>, base: Base, ns: seq<int>)
    requires base.width > 0 && NumberedBy(items, base, ns)
    ensures |ns| == |items|
  {
  }

  /** Number the names of an enumeration. There is no error exactly if every name is in order, and
      then each has its value; and whatever the errors, the outcome is the one that is reckoned. */
  method ElaborateEnumeration(items: seq<Item>, base: Base) returns (members: seq<Member>, errors: nat)
    requires Wellformed(items, base)
    ensures errors == 0 <==> OkUpTo(items, |items|, base)
    ensures errors == 0 ==>
      && |members| == |items|
      && forall i: nat | i < |items| :: members[i] == Member(items[i].name, ValueAt(items, i, base))
    ensures Accepts(items, base, members, errors)
    ensures exists got :: Reckoned(items, base, got, members, errors)
  {
    hide OkUpTo, ExplicitOk, Accepts, Underway, Orderly, Reckoned, Stops, FitFaults, Resized, Add, Int, MaxValue,
      ValueAt, OneValue;
    StartOk(items, base);
    Started(items, base);
    members, errors := [], 0;
    var cur := Fill(V0, base.width);
    var wrapped := false;
    ghost var got := [];
    for i := 0 to |items|
      invariant |cur| == base.width && |got| == i
      invariant Orderly(items, i, base, cur, wrapped, members, errors)
      invariant Underway(items, base, got, cur, wrapped, members, errors)
    {
      ghost var errors0, cur0, wrapped0, members0 := errors, cur, wrapped, members;
      match items[i].given {
        case NotConstant =>
          NothingStep(items, base, got, cur, wrapped, members, errors);
          OutOfOrder(items, i, base, cur, wrapped, members, errors);
          got := got + [Nothing];
          errors := errors + 1;
          continue;
        case Explicit(_, _, _) =>
          var fitErrors, stop;
          cur, fitErrors, stop := FitExplicit(items[i].given, base);
          wrapped := false;
          if stop {
            Finished(items, base, got, cur0, wrapped0, members, errors);
            OutOfOrder(items, i, base, cur0, wrapped0, members, errors);
            errors := errors + fitErrors;
            break;
          }
          errors := errors + fitErrors;
        case Implicit =>
          if !IsDefined(cur) {
            NothingStep(items, base, got, cur, wrapped, members, errors);
            OutOfOrder(items, i, base, cur, wrapped, members, errors);
            got := got + [Nothing];
            errors := errors + 1;
            continue;
          }
      }
      if wrapped {
        errors := errors + 1;
      }
      if exists k :: 0 <= k < |members| && members[k].bits == cur {
        errors := errors + 1;
      }
      if exists k :: 0 <= k < |members| && members[k].name == items[i].name {
        errors := errors + 1;
      } else {
        members := members + [Member(items[i].name, cur)];
      }
      ValueStep(items, base, got, cur0, wrapped0, members0, errors0, cur);
      OrderStep(items, i, base, cur0, wrapped0, members0, errors0, cur);
      got := got + [Value(cur)];
      if IsDefined(cur) {
        if Int(cur, base.signed) == MaxValue(base) {
          wrapped := true;
        }
        cur := Add(cur, OneValue(base.width), false);
      }
    }
    if |got| == |items| {
      Finished(items, base, got, cur, wrapped, members, errors);
      InOrder(items, base, cur, wrapped, members, errors);
    }
    NumbersHave(items, base, members, errors);
  }

  lemma StartOk(items: seq<Item>, base: Base)
    requires Wellformed(items, base)
    ensures Orderly(items, 0, base, Fill(V0, base.width), false, [], 0)
    ensures forall members | Numbered(items, |items|, members, base) ::
      && |members| == |items|
      && forall i: nat | i < |items| :: members[i] == Member(items[i].name, ValueAt(items, i, base))
  {
  }

  /** No errors so far exactly if every name up to `n` is in order, and then each has its value. */
  ghost predicate Orderly(items: seq<Item>, n: nat, base: Base, cur: Vec, wrapped: bool, members: seq<Member>,
      errors: nat)
    requires Wellformed(items, base) && n <= |items|
  {
    && (errors == 0 <==> OkUpTo(items, n, base))
    && (errors == 0 ==>
          && Numbered(items, n, members, base)
          && cur == Upcoming(items, n, base)
          && wrapped == (n > 0 && IsMax(ValueAt(items, n - 1, base), base)))
  }

  lemma InOrder(items: seq<Item>, base: Base, cur: Vec, wrapped: bool, members: seq<Member>, errors: nat)
    requires Wellformed(items, base) && Orderly(items, |items|, base, cur, wrapped, members, errors)
    ensures errors == 0 <==> OkUpTo(items, |items|, base)
    ensures errors == 0 ==> Numbered(items, |items|, members, base)
  {
  }

  /** A name that may not have what it is given, or does not come to a value. */
  lemma OutOfOrder(items: seq<Item>, i: nat, base: Base, cur: Vec, wrapped: bool, members: seq<Member>, errors: nat)
    requires Wellformed(items, base) && i < |items|
    requires Orderly(items, i, base, cur, wrapped, members, errors)
    requires var given := items[i].given;
      || given.NotConstant?
      || Stops(given, base)
      || (given.Implicit? && !IsDefined(cur))
    ensures Orderly(items, i + 1, base, cur, wrapped, members, errors + 1)
    ensures !OkUpTo(items, |items|, base)
  {
    hide IsMax, IsDefined, Numbered, Resized, Next, FitFaults;
    if errors == 0 {
      assert items[i].given.Implicit? && i > 0 ==> cur == Next(ValueAt(items, i - 1, base), base);
      UndefinedNext(items, i, base);
      assert !ItemOk(items, i, base);
    }
  }

  lemma UndefinedNext(items: seq<Item>, i: nat, base: Base)
    requires Wellformed(items, base) && i < |items|
    ensures i > 0 && !IsDefined(Next(ValueAt(items, i - 1, base), base)) ==>
      !IsDefined(ValueAt(items, i - 1, base))
    ensures IsDefined(Fill(V0, base.width))
  {
    hide ValueAt, Add;
  }

  lemma OrderStep(items: seq<Item>, i: nat, base: Base, cur: Vec, wrapped: bool, members: seq<Member>, errors: nat,
      bits: Vec)
    requires Wellformed(items, base) && i < |items| && |bits| == base.width
    requires Orderly(items, i, base, cur, wrapped, members, errors) && ComesTo(items[i], base, cur, bits)
    ensures var item := items[i];
      Orderly(items, i + 1, base, Next(bits, base), IsMax(bits, base) || (wrapped && !item.given.Explicit?),
        Extended(members, item.name, bits), errors + Charged(item, base, wrapped, members, bits))
  {
    hide OkUpTo, ItemOk, GivenOk, Numbered, IsMax, Next, FitFaults, Stops, Named, Valuing;
    Before(items, i, base);
    if errors == 0 {
      ItemCounted(items, i, base, wrapped, members, bits);
    }
  }

  lemma Before(items: seq<Item>, i: nat, base: Base)
    requires Wellformed(items, base) && i < |items|
    ensures !OkUpTo(items, i, base) ==> !OkUpTo(items, i + 1, base)
  {
  }

  /** The errors counted for a name, after `members`, are those that it has. */
  lemma ItemCounted(items: seq<Item>, i: nat, base: Base, wrapped: bool, members: seq<Member>, bits: Vec)
    requires Wellformed(items, base) && i < |items| && OkUpTo(items, i, base) && Numbered(items, i, members, base)
    requires ComesTo(items[i], base, Upcoming(items, i, base), bits)
    requires wrapped == (i > 0 && IsMax(ValueAt(items, i - 1, base), base))
    ensures Charged(items[i], base, wrapped, members, bits) == 0 <==> OkUpTo(items, i + 1, base)
    ensures bits == ValueAt(items, i, base)
    ensures Charged(items[i], base, wrapped, members, bits) == 0 ==>
      Numbered(items, i + 1, Extended(members, items[i].name, bits), base)
    ensures Charged(items[i], base, wrapped, members, bits) == 0 && items[i].given.Implicit? ==> !wrapped
  {
    hide IsMax, Next, ExplicitOk, IsDefined, Stops, Resized, FitFaults;
    GivenCounted(items, i, base, wrapped, bits);
    hide GivenOk, ValueAt;
    if ItemOk(items, i, base) {
      forall k | 0 <= k < |members| ensures members[k].bits != bits && members[k].name != items[i].name {
        assert items[k].name != items[i].name && ValueAt(items, k, base) != ValueAt(items, i, base);
      }
    }
    if Charged(items[i], base, wrapped, members, bits) == 0 {
      forall j: nat | j < i
        ensures items[j].name != items[i].name && ValueAt(items, j, base) != ValueAt(items, i, base)
      {
        assert members[j] == Member(items[j].name, ValueAt(items, j, base));
      }
    }
  }

  lemma GivenCounted(items: seq<Item>, i: nat, base: Base, wrapped: bool, bits: Vec)
    requires Wellformed(items, base) && i < |items|
    requires ComesTo(items[i], base, Upcoming(items, i, base), bits)
    requires wrapped == (i > 0 && IsMax(ValueAt(items, i - 1, base), base))
    ensures bits == ValueAt(items, i, base)
    ensures GivenOk(items, i, base) <==>
      if items[i].given.Explicit? then FitFaults(items[i].given, base) == 0 else !wrapped
  {
    hide IsMax, ExplicitOk, Add, Stops, Resized;
  }

  ghost predicate Numbered(items: seq<Item>, n: nat, members: seq<Member>, base: Base)
    requires Wellformed(items, base) && n <= |items|
  {
    |members| == n && forall i: nat | i < n :: members[i] == Member(items[i].name, ValueAt(items, i, base))
  }

  /** The value that name `n` gets if it has none of its own. */
  ghost function Upcoming(items: seq<Item>, n: nat, base: Base): Vec
    requires Wellformed(items, base) && n <= |items|
  {
    if n == 0 then Fill(V0, base.width) else Next(ValueAt(items, n - 1, base), base)
  }
}
