/** Indexed part selects, `x[base +: w]` and `x[base -: w]`, with a constant base: the
    expression, the l-value, the net and the parameter elaborators each have their own index
    arithmetic. */
module Selects {
  import opened FourState
  import opened PowersOfTwo

  datatype Range = Range(msb: int, lsb: int) {
    predicate Descending() {
      msb >= lsb
    }

    function Width(): nat {
      if msb >= lsb then msb - lsb + 1 else lsb - msb + 1
    }

    predicate Contains(i: int) {
      lsb <= i <= msb || msb <= i <= lsb
    }

    function Offset(i: int): int {
      if Descending() then i - lsb else lsb - i
    }
  }

  /** A constant base. */
  datatype Base = Base(value: int, signed: bool) {
    /** An unsigned base that is negative as a 32-bit integer. */
    predicate WrapsAround() {
      !signed && value % 0x1_0000_0000 >= 0x8000_0000
    }
  }

  datatype Part = NoPart | Part(low: int)

  // ----- canonical positions in a packed array

  function TotalWidth(dims: seq<Range>): nat {
    if dims == [] then 1 else dims[0].Width() * TotalWidth(dims[1..])
  }

  /** The position of an element, the last dimension varying fastest. */
  function Canonical(dims: seq<Range>, indices: seq<int>): int
    requires |dims| == |indices|
  {
    if dims == [] then 0
    else dims[0].Offset(indices[0]) * TotalWidth(dims[1..]) + Canonical(dims[1..], indices[1..])
  }

  ghost predicate InBounds(dims: seq<Range>, indices: seq<int>)
    requires |dims| == |indices|
  {
    forall k | 0 <= k < |dims| :: dims[k].Contains(indices[k])
  }

  lemma {:induction false} CanonicalInRange(dims: seq<Range>, indices: seq<int>)
    requires |dims| == |indices| && InBounds(dims, indices)
    ensures 0 <= Canonical(dims, indices) < TotalWidth(dims)
  {
    if dims != [] {
      var rest, total := dims[1..], TotalWidth(dims[1..]);
      forall k | 0 <= k < |rest| ensures rest[k].Contains(indices[1..][k]) {
        assert dims[k + 1].Contains(indices[k + 1]);
      }
      CanonicalInRange(rest, indices[1..]);
      assert dims[0].Contains(indices[0]);
      DigitInRange(dims[0].Offset(indices[0]), dims[0].Width(), total, Canonical(rest, indices[1..]));
    }
  }

  lemma DigitsUnique(x: int, y: int, total: int, c: int, d: int)
    requires x * total + c == y * total + d && 0 <= c < total && 0 <= d < total
    ensures x == y && c == d
  {
    assert (x - y) * total == x * total - y * total;
    MultipleBelow(x - y, total);
  }

  lemma DigitInRange(x: int, w: int, total: int, c: int)
    requires 0 <= x < w && 0 <= c < total
    ensures 0 <= x * total + c < w * total
  {
    Product(x, total);
    Product(w - 1 - x, total);
    assert (w - 1 - x) * total == w * total - total - x * total;
  }

  /** No two elements share a position. */
  lemma {:induction false} CanonicalInjective(dims: seq<Range>, a: seq<int>, b: seq<int>)
    requires |dims| == |a| == |b| && InBounds(dims, a) && InBounds(dims, b)
    requires Canonical(dims, a) == Canonical(dims, b)
    ensures a == b
  {
    if dims != [] {
      var rest, total := dims[1..], TotalWidth(dims[1..]);
      forall k | 0 <= k < |rest| ensures rest[k].Contains(a[1..][k]) && rest[k].Contains(b[1..][k]) {
        assert dims[k + 1].Contains(a[k + 1]) && dims[k + 1].Contains(b[k + 1]);
      }
      CanonicalInRange(rest, a[1..]);
      CanonicalInRange(rest, b[1..]);
      DigitsUnique(dims[0].Offset(a[0]), dims[0].Offset(b[0]), total, Canonical(rest, a[1..]), Canonical(rest, b[1..]));
      hide Canonical, TotalWidth, InBounds;
      CanonicalInjective(rest, a[1..], b[1..]);
      assert a == [a[0]] + a[1..] && b == [b[0]] + b[1..];
    }
  }

  // ----- a reference: counting through the elements

  /** The index one step further towards the msb. */
  function Further(range: Range, i: int): int {
    if range.lsb <= range.msb then i + 1 else i - 1
  }

  ghost predicate AtLsb(dims: seq<Range>, indices: seq<int>)
    requires |dims| == |indices|
  {
    forall k | 0 <= k < |dims| :: indices[k] == dims[k].lsb
  }

  ghost predicate AtMsb(dims: seq<Range>, indices: seq<int>)
    requires |dims| == |indices|
  {
    forall k | 0 <= k < |dims| :: indices[k] == dims[k].msb
  }

  /** The element with every index at its lsb is the first. */
  lemma {:induction false} FirstElement(dims: seq<Range>, indices: seq<int>)
    requires |dims| == |indices| && AtLsb(dims, indices)
    ensures Canonical(dims, indices) == 0
  {
    if dims != [] {
      FirstElement(dims[1..], indices[1..]);
      assert dims[0].Offset(indices[0]) == 0;
    }
  }

  /** And the one with every index at its msb is the last. */
  lemma {:induction false} LastElement(dims: seq<Range>, indices: seq<int>)
    requires |dims| == |indices| && AtMsb(dims, indices)
    ensures Canonical(dims, indices) == TotalWidth(dims) - 1
  {
    if dims != [] {
      LastElement(dims[1..], indices[1..]);
      assert dims[0].Offset(indices[0]) == dims[0].Width() - 1;
      OneStep(dims[0].Width() - 1, TotalWidth(dims[1..]));
    }
  }

  lemma OneStep(x: int, total: int)
    ensures (x + 1) * total == x * total + total
  {
  }

  /** Counting: when the indices after `k` are all at their msb, the next element has index `k` one
      further and those at their lsb. */
  lemma {:induction false} NextElement(dims: seq<Range>, a: seq<int>, b: seq<int>, k: nat)
    requires |dims| == |a| == |b| && k < |dims| && a[..k] == b[..k]
    requires b[k] == Further(dims[k], a[k])
    requires AtMsb(dims[k + 1..], a[k + 1..]) && AtLsb(dims[k + 1..], b[k + 1..])
    ensures Canonical(dims, b) == Canonical(dims, a) + 1
    decreases k
  {
    if k == 0 {
      LastElement(dims[1..], a[1..]);
      FirstElement(dims[1..], b[1..]);
      assert dims[0].Offset(b[0]) == dims[0].Offset(a[0]) + 1;
      OneStep(dims[0].Offset(a[0]), TotalWidth(dims[1..]));
    } else {
      assert a[0] == a[..k][0] == b[..k][0] == b[0];
      assert a[1..][..k - 1] == a[..k][1..] && b[1..][..k - 1] == b[..k][1..];
      assert dims[1..][k..] == dims[k + 1..] && a[1..][k..] == a[k + 1..] && b[1..][k..] == b[k + 1..];
      NextElement(dims[1..], a[1..], b[1..], k - 1);
    }
  }

  lemma Divided(n: nat, w: nat, total: nat) returns (x: nat, y: nat)
    requires total > 0 && n < w * total
    ensures x < w && y < total && n == x * total + y
  {
    x, y := n / total, n % total;
    MultipleBelow(x + 1 - w, total);
    assert (x + 1 - w) * total == x * total + total - w * total;
  }

  /** Every position is that of some element. */
  lemma {:induction false} CanonicalOnto(dims: seq<Range>, pos: int) returns (indices: seq<int>)
    requires 0 <= pos < TotalWidth(dims)
    ensures |indices| == |dims| && InBounds(dims, indices) && Canonical(dims, indices) == pos
  {
    if dims == [] {
      indices := [];
    } else {
      var total, w, range := TotalWidth(dims[1..]), dims[0].Width(), dims[0];
      var x, y := Divided(pos, w, total);
      var rest := CanonicalOnto(dims[1..], y);
      var i := if range.msb >= range.lsb then range.lsb + x else range.lsb - x;
      indices := [i] + rest;
      assert indices[1..] == rest && range.Offset(i) == x && range.Contains(i);
      assert forall k | 0 < k < |dims| :: indices[k] == rest[k - 1] && dims[k] == dims[1..][k - 1];
    }
  }

  /** As a 32-bit integer the value of an unsigned base is negative. */
  ghost predicate NegativeInt(base: Base) {
    !base.signed && exists n: int :: n < 0 && HeldAs(base.value, n)
  }

  predicate HeldAs(value: int, n: int) {
    -0x8000_0000 <= n < 0x8000_0000 && (value - n) % 0x1_0000_0000 == 0
  }

  lemma WrapsIff(base: Base)
    ensures base.WrapsAround() <==> NegativeInt(base)
  {
    var m := 0x1_0000_0000;
    var r := base.value % m;
    if base.WrapsAround() {
      assert HeldAs(base.value, r - m);
    }
    if n: int :| n < 0 && HeldAs(base.value, n) {
      var q := (base.value - n) / m - 1;
      assert base.value == m * q + (n + m);
      assert q == base.value / m && r == n + m;
    }
  }

  /** Find the position of bit `sb` of the slice that the prefix indices select, from the
      innermost dimension out. */
  method SbToIdx(dims: seq<Range>, prefix: seq<int>, sb: int) returns (accOff: int)
    requires |prefix| + 1 == |dims|
    ensures accOff == Canonical(dims, prefix + [sb])
  {
    var pcur := |dims| - 1;
    var accWid := dims[pcur].Width();
    if dims[pcur].msb >= dims[pcur].lsb {
      accOff := sb - dims[pcur].lsb;
    } else {
      accOff := dims[pcur].lsb - sb;
    }
    ghost var all := prefix + [sb];
    assert dims[pcur..] == [dims[pcur]] && all[pcur..] == [sb] && dims[pcur..][1..] == [];
    assert TotalWidth([]) == 1 && TotalWidth(dims[pcur..]) == accWid * 1;
    assert Canonical(dims[pcur..], all[pcur..]) == dims[pcur].Offset(sb) * 1 + Canonical([], []);
    while pcur > 0
      invariant 0 <= pcur < |dims|
      invariant accWid == TotalWidth(dims[pcur..])
      invariant accOff == Canonical(dims[pcur..], all[pcur..])
    {
      pcur := pcur - 1;
      var tmpOff;
      if dims[pcur].msb >= dims[pcur].lsb {
        tmpOff := prefix[pcur] - dims[pcur].lsb;
      } else {
        tmpOff := dims[pcur].lsb - prefix[pcur];
      }
      assert dims[pcur..][1..] == dims[pcur + 1..] && all[pcur..][1..] == all[pcur + 1..];
      accOff := accOff + tmpOff * accWid;
      accWid := accWid * dims[pcur].Width();
    }
    assert dims[0..] == dims && all[0..] == all;
  }

  // ----- what a select covers

  /** The first of the `w` declared indices that are selected. */
  function FirstIndex(base: int, w: nat, up: bool): int {
    if up then base else base - w + 1
  }

  ghost predicate Selected(i: int, base: int, w: nat, up: bool) {
    FirstIndex(base, w, up) <= i < FirstIndex(base, w, up) + w
  }

  /** The lowest position covered, that of the selected index nearest to the lsb. */
  function Lowest(dims: seq<Range>, prefix: seq<int>, base: int, w: nat, up: bool): int
    requires |prefix| + 1 == |dims| && w > 0
  {
    var first := FirstIndex(base, w, up);
    Canonical(dims, prefix + [if dims[|prefix|].Descending() then first else first + w - 1])
  }

  lemma {:induction false} CanonicalShift(dims: seq<Range>, prefix: seq<int>, i: int, j: int)
    requires |prefix| + 1 == |dims|
    ensures Canonical(dims, prefix + [i]) - Canonical(dims, prefix + [j])
         == dims[|prefix|].Offset(i) - dims[|prefix|].Offset(j)
  {
    if prefix == [] {
      assert [] + [i] == [i] && [] + [j] == [j];
      assert dims[1..] == [] && [i][1..] == [] && [j][1..] == [];
    } else {
      assert (prefix + [i])[1..] == prefix[1..] + [i] && (prefix + [j])[1..] == prefix[1..] + [j];
      CanonicalShift(dims[1..], prefix[1..], i, j);
    }
  }

  /** The positions from the lowest one on are exactly those of the selected indices. */
  lemma CoversSelected(dims: seq<Range>, prefix: seq<int>, base: int, w: nat, up: bool, pos: int)
    requires |prefix| + 1 == |dims| && w > 0
    ensures Lowest(dims, prefix, base, w, up) <= pos < Lowest(dims, prefix, base, w, up) + w
       <==> exists i: int :: Selected(i, base, w, up) && Canonical(dims, prefix + [i]) == pos
  {
    var low, first := Lowest(dims, prefix, base, w, up), FirstIndex(base, w, up);
    var start := if dims[|prefix|].Descending() then first else first + w - 1;
    if low <= pos < low + w {
      var i := if dims[|prefix|].Descending() then first + (pos - low) else first + w - 1 - (pos - low);
      CanonicalShift(dims, prefix, i, start);
      assert Selected(i, base, w, up) && Canonical(dims, prefix + [i]) == pos;
    }
    forall i: int | Selected(i, base, w, up) ensures low <= Canonical(dims, prefix + [i]) < low + w {
      CanonicalShift(dims, prefix, i, start);
    }
  }

  /** `x[m +: w]` selects what `x[m + w - 1 -: w]` selects. */
  lemma UpIsDown(dims: seq<Range>, prefix: seq<int>, m: int, w: nat)
    requires |prefix| + 1 == |dims| && w > 0
    ensures Lowest(dims, prefix, m, w, true) == Lowest(dims, prefix, m + w - 1, w, false)
    ensures forall i: int :: Selected(i, m, w, true) <==> Selected(i, m + w - 1, w, false)
  {
    assert FirstIndex(m, w, true) == FirstIndex(m + w - 1, w, false);
  }

  /** The elaborators that compare msb and lsb strictly go wrong by this much on a range [n:n]. */
  function ExprSlip(range: Range, w: nat, up: bool): int {
    if range.msb == range.lsb then if up then 1 - w else w - 1 else 0
  }

  function LvalSlip(range: Range, w: nat, up: bool): int {
    if range.msb == range.lsb && !up then w - 1 else 0
  }

  // ----- the four elaborators

  /** In an expression: no part, and so all bits x, for a base that wraps around. */
  method ExprIdx(dims: seq<Range>, prefix: seq<int>, base: Base, w: nat, up: bool) returns (part: Part)
    requires |prefix| + 1 == |dims| && w > 0
    ensures part == if base.WrapsAround() then NoPart
                    else Part(Lowest(dims, prefix, base.value, w, up) + ExprSlip(dims[|prefix|], w, up))
    ensures part == NoPart <==> NegativeInt(base)
    ensures part != NoPart && dims[|prefix|].msb == dims[|prefix|].lsb ==>
      part.low == Canonical(dims, prefix + [base.value]) + if up then 1 - w else 0
  {
    WrapsIff(base);
    if base.WrapsAround() {
      return NoPart;
    }
    var rng := dims[|dims| - 1];
    var offset := 0;
    if (rng.msb > rng.lsb) != up {
      offset := 1 - w;
    }
    var idx := SbToIdx(dims, prefix, base.value);
    FromBase(dims, prefix, base.value, w, up);
    part := Part(idx + offset);
  }

  /** In a procedural l-value: no assignment for a base that wraps around. */
  method LvalIdx(dims: seq<Range>, prefix: seq<int>, base: Base, w: nat, up: bool) returns (part: Part)
    requires |prefix| + 1 == |dims| && w > 0
    ensures part == if base.WrapsAround() then NoPart
                    else Part(Lowest(dims, prefix, base.value, w, up) + LvalSlip(dims[|prefix|], w, up))
    ensures part == NoPart <==> NegativeInt(base)
    ensures part != NoPart && dims[|prefix|].msb == dims[|prefix|].lsb ==>
      part.low == Canonical(dims, prefix + [base.value])
  {
    WrapsIff(base);
    if base.WrapsAround() {
      return NoPart;
    }
    var rng := dims[|dims| - 1];
    var offset := 0;
    if (rng.msb < rng.lsb && up) || (rng.msb > rng.lsb && !up) {
      offset := 1 - w;
    }
    var idx := SbToIdx(dims, prefix, base.value);
    FromBase(dims, prefix, base.value, w, up);
    part := Part(idx + offset);
  }

  /** On a net: refused for a base that wraps around and for a part wholly outside. */
  method NetIdx(dims: seq<Range>, prefix: seq<int>, base: Base, w: nat, up: bool)
    returns (ok: bool, midx: int, lidx: int)
    requires |prefix| + 1 == |dims| && w > 0
    ensures var low := Lowest(dims, prefix, base.value, w, up);
      && (ok <==> !base.WrapsAround() && low < TotalWidth(dims) && low + w > 0)
      && (ok ==> lidx == low && midx == low + w - 1)
      && (ok <==> !NegativeInt(base) && low < TotalWidth(dims) && low + w > 0)
  {
    WrapsIff(base);
    midx, lidx := 0, 0;
    if base.WrapsAround() {
      return false, midx, lidx;
    }
    midx := SbToIdx(dims, prefix, base.value);
    if up {
      lidx := SbToIdx(dims, prefix, base.value + w - 1);
      CanonicalShift(dims, prefix, base.value + w - 1, base.value);
    } else {
      lidx := SbToIdx(dims, prefix, base.value - w + 1);
      CanonicalShift(dims, prefix, base.value - w + 1, base.value);
    }
    if midx < lidx {
      midx, lidx := lidx, midx;
    }
    FromBase(dims, prefix, base.value, w, up);
    ok := !(lidx >= TotalWidth(dims) || midx < 0);
  }

  /** On a parameter, which has one dimension. */
  method ParamIdx(range: Range, base: int, w: nat, up: bool) returns (low: int)
    requires w > 0
    ensures low == Lowest([range], [], base, w, up)
  {
    var lsv, parBase := base, range.lsb;
    if !up {
      parBase := parBase + w - 1;
    }
    if range.msb < range.lsb {
      parBase := lsv;
      lsv := range.lsb;
      if up {
        lsv := lsv - (w - 1);
      }
    }
    low := lsv - parBase;
    CanonicalOne(range, FirstIndex(base, w, up));
    CanonicalOne(range, FirstIndex(base, w, up) + w - 1);
  }

  lemma CanonicalOne(range: Range, i: int)
    ensures Canonical([range], [] + [i]) == range.Offset(i)
  {
    assert [] + [i] == [i] && [range][1..] == [] && [i][1..] == [];
  }

  lemma FromBase(dims: seq<Range>, prefix: seq<int>, base: int, w: nat, up: bool)
    requires |prefix| + 1 == |dims| && w > 0
    ensures Lowest(dims, prefix, base, w, up)
         == Canonical(dims, prefix + [base]) + if dims[|prefix|].Descending() == up then 0 else 1 - w
  {
    var first := FirstIndex(base, w, up);
    CanonicalShift(dims, prefix, if dims[|prefix|].Descending() then first else first + w - 1, base);
  }

  /** Elaborate one select everywhere: the four agree on every base exactly if the range is not
      [n:n] or the width is 1. Where they have an answer, the net and the parameter are right. */
  method ElaborateEverywhere(range: Range, base: Base, w: nat, up: bool)
    returns (inExpr: Part, inLval: Part, onNet: Part, onParam: Part)
    requires w > 0
    ensures onParam == Part(Lowest([range], [], base.value, w, up))
    ensures onNet == NoPart || onNet == onParam
    ensures onNet == NoPart <==>
      base.WrapsAround() || onParam.low >= range.Width() || onParam.low + w <= 0
    ensures !base.WrapsAround() ==> ((inExpr == inLval == onParam) <==> (range.msb != range.lsb || w == 1))
    ensures base.WrapsAround() <==> inExpr == NoPart
    ensures base.WrapsAround() <==> inLval == NoPart
  {
    inExpr := ExprIdx([range], [], base, w, up);
    inLval := LvalIdx([range], [], base, w, up);
    var ok, midx, lidx := NetIdx([range], [], base, w, up);
    assert TotalWidth([range]) == range.Width() * TotalWidth([]) by { assert [range][1..] == []; }
    onNet := if ok then Part(lidx) else NoPart;
    var low := ParamIdx(range, base.value, w, up);
    onParam := Part(low);
  }

  /** Elaborate `x[m +: w]` and `x[m + w - 1 -: w]`, which select the same indices: nets and
      parameters always give the same part, expressions and l-values exactly if the range is
      not [n:n] or the width is 1. */
  method ElaborateUpAndDown(dims: seq<Range>, prefix: seq<int>, m: int, signed: bool, w: nat)
    returns (sameInExpr: bool, sameInLval: bool, sameOnNet: bool, sameOnParam: bool)
    requires |prefix| + 1 == |dims| && w > 0
    ensures sameOnParam
    ensures !Base(m, signed).WrapsAround() && !Base(m + w - 1, signed).WrapsAround() ==>
      && sameOnNet
      && (sameInExpr <==> dims[|prefix|].msb != dims[|prefix|].lsb || w == 1)
      && (sameInLval <==> dims[|prefix|].msb != dims[|prefix|].lsb || w == 1)
  {
    var up, down := Base(m, signed), Base(m + w - 1, signed);
    UpIsDown(dims, prefix, m, w);
    UpIsDown([dims[|prefix|]], [], m, w);
    var exprUp := ExprIdx(dims, prefix, up, w, true);
    var exprDown := ExprIdx(dims, prefix, down, w, false);
    var lvalUp := LvalIdx(dims, prefix, up, w, true);
    var lvalDown := LvalIdx(dims, prefix, down, w, false);
    var okUp, midxUp, lidxUp := NetIdx(dims, prefix, up, w, true);
    var okDown, midxDown, lidxDown := NetIdx(dims, prefix, down, w, false);
    var paramUp := ParamIdx(dims[|prefix|], m, w, true);
    var paramDown := ParamIdx(dims[|prefix|], m + w - 1, w, false);
    sameInExpr := exprUp == exprDown;
    sameInLval := lvalUp == lvalDown;
    sameOnNet := okUp == okDown && (okUp ==> midxUp == midxDown && lidxUp == lidxDown);
    sameOnParam := paramUp == paramDown;
  }

  // ----- the bits of a parameter

  datatype ParamValue = ParamValue(bits: Vec, hasLen: bool, hasSign: bool, isString: bool)

  /** The bit at a position: x before the parameter and after a sized one, zeros after a string,
      and otherwise the sign extension. */
  function ParamBit(par: ParamValue, off: int): V4
    requires par.bits != []
  {
    if off < 0 then Vx
    else if off < |par.bits| then par.bits[off]
    else if par.isString then V0
    else if par.hasLen then Vx
    else if par.hasSign then par.bits[|par.bits| - 1]
    else V0
  }

  /** The bit at a position: the one that is there; before the parameter x; after it zeros for a
      string, x for a sized number, and otherwise copies of the sign, or zeros. */
  lemma ParamBitIs(par: ParamValue, off: int)
    requires par.bits != []
    ensures 0 <= off < |par.bits| ==> ParamBit(par, off) == par.bits[off]
    ensures off < 0 ==> ParamBit(par, off) == Vx
    ensures off >= |par.bits| && !par.isString && par.hasLen ==> ParamBit(par, off) == Vx
    ensures off >= |par.bits| && !par.isString && !par.hasLen && par.hasSign ==>
      ParamBit(par, off) == ParamBit(par, |par.bits| - 1)
    ensures off >= |par.bits| && (par.isString || (!par.hasLen && !par.hasSign)) ==> ParamBit(par, off) == V0
  {
  }

  /** A byte-aligned part of a string becomes a string, and that keeps no x or z. */
  predicate BecomesString(par: ParamValue, w: nat, lsv: int) {
    par.isString && lsv % 8 == 0 && w % 8 == 0
  }

  method ParamPartSelectBits(par: ParamValue, w: nat, lsv: int) returns (result: Vec)
    requires par.bits != [] && w > 0
    ensures |result| == w
    ensures if par.isString && lsv % 8 == 0 && w % 8 == 0
            then forall k | 0 <= k < w :: result[k] == if ParamBit(par, lsv + k) == V1 then V1 else V0
            else forall k | 0 <= k < w :: result[k] == ParamBit(par, lsv + k)
    ensures forall k | 0 <= k < w ::
      result[k] == if BecomesString(par, w, lsv) then ToTwoState(ParamBit(par, lsv + k)) else ParamBit(par, lsv + k)
  {
    result := Fill(Vx, w);
    for idx := 0 to w
      invariant |result| == w
      invariant forall k | 0 <= k < idx :: result[k] == ParamBit(par, lsv + k)
      invariant forall k | idx <= k < w :: result[k] == Vx
    {
      var off := idx + lsv;
      if off < 0 {
        continue;
      } else if off < |par.bits| {
        result := result[idx := par.bits[off]];
      } else if par.isString {
        result := result[idx := V0];
      } else if par.hasLen {
        continue;
      } else {
        result := result[idx := if par.hasSign then par.bits[|par.bits| - 1] else V0];
      }
    }
    if BecomesString(par, w, lsv) {
      result := AsString(result);
    }
  }

  function AsString(bits: Vec): (r: Vec)
    ensures |r| == |bits| && forall k | 0 <= k < |bits| :: r[k] == ToTwoState(bits[k])
  {
    seq(|bits|, k requires 0 <= k < |bits| => ToTwoState(bits[k]))
  }

  /** An indexed part select of a parameter: every selected index, whichever way the range runs,
      finds its bit. */
  method ParamSelect(par: ParamValue, range: Range, base: int, w: nat, up: bool) returns (result: Vec)
    requires par.bits != [] && w > 0
    ensures |result| == w
    ensures forall i: int | Selected(i, base, w, up) ::
      var low := Lowest([range], [], base, w, up);
      && 0 <= range.Offset(i) - low < w
      && result[range.Offset(i) - low] ==
           if BecomesString(par, w, low) then ToTwoState(ParamBit(par, range.Offset(i)))
           else ParamBit(par, range.Offset(i))
  {
    var low := ParamIdx(range, base, w, up);
    result := ParamPartSelectBits(par, w, low);
    forall i: int | Selected(i, base, w, up) ensures 0 <= range.Offset(i) - low < w {
      var first := FirstIndex(base, w, up);
      CanonicalOne(range, if range.Descending() then first else first + w - 1);
    }
  }

  /** A single bit select: the same bit, except that it is x after the end of a string. */
  method ParamBitSelect(par: ParamValue, range: Range, i: int) returns (bit: V4)
    requires par.bits != [] && (par.isString ==> par.hasLen)
    ensures bit == ParamBit(par, range.Offset(i)) <==> !(par.isString && range.Offset(i) >= |par.bits|)
    ensures par.isString && range.Offset(i) >= |par.bits| ==> bit == Vx
  {
    var selV := i;
    if range.msb >= range.lsb {
      selV := selV - range.lsb;
    } else {
      selV := range.lsb - selV;
    }
    bit := Vx;
    if 0 <= selV < |par.bits| {
      bit := par.bits[selV];
    } else if selV >= 0 && !par.hasLen {
      bit := if par.hasSign then par.bits[|par.bits| - 1] else V0;
    }
  }
}
