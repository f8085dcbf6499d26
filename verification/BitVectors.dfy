/** The integers that defined vectors stand for, and ripple-carry addition. */
module BitVectors {
  import opened FourState
  import opened PowersOfTwo

  function One(bit: V4): nat {
    if bit == V1 then 1 else 0
  }

  /** The unsigned value of a defined vector. */
  function Nat(v: Vec): nat {
    if v == [] then 0 else One(v[0]) + 2 * Nat(v[1..])
  }

  predicate Negative(v: Vec, signed: bool) {
    signed && v != [] && v[|v| - 1] == V1
  }

  /** The value of a defined vector, in two's complement if it is signed. */
  function Int(v: Vec, signed: bool): int {
    Nat(v) - if Negative(v, signed) then Pow2(|v|) else 0
  }

  lemma {:induction false} NatConcat(a: Vec, b: Vec)
    ensures Nat(a + b) == Nat(a) + Pow2(|a|) * Nat(b)
  {
    if a == [] {
      assert a + b == b;
    } else {
      assert (a + b)[0] == a[0] && (a + b)[1..] == a[1..] + b;
      NatConcat(a[1..], b);
      Doubled(Pow2(|a| - 1), Nat(b));
    }
  }

  lemma Doubled(p: int, n: int)
    ensures 2 * (p * n) == (2 * p) * n
  {
  }

  lemma {:induction false} NatBound(v: Vec)
    ensures Nat(v) < Pow2(|v|)
  {
    if v != [] {
      NatBound(v[1..]);
    }
  }

  lemma {:induction false} NatIsZero(v: Vec)
    requires IsDefined(v)
    ensures Nat(v) == 0 <==> v == Fill(V0, |v|)
  {
    if v != [] {
      NatIsZero(v[1..]);
      assert v == [v[0]] + v[1..];
    }
  }

  lemma {:induction false} NatIsMax(v: Vec)
    requires IsDefined(v)
    ensures Nat(v) == Pow2(|v|) - 1 <==> v == Fill(V1, |v|)
  {
    if v != [] {
      NatIsMax(v[1..]);
      NatBound(v[1..]);
      assert v == [v[0]] + v[1..];
    }
  }

  lemma {:induction false} NatUnique(a: Vec, b: Vec)
    requires |a| == |b| && IsDefined(a) && IsDefined(b) && Nat(a) == Nat(b)
    ensures a == b
  {
    if a != [] {
      NatUnique(a[1..], b[1..]);
      assert a == [a[0]] + a[1..] && b == [b[0]] + b[1..];
    }
  }

  /** The top bit of a vector splits its range. */
  lemma NatTop(v: Vec)
    requires v != [] && IsDefined(v)
    ensures v[|v| - 1] == V1 <==> Nat(v) >= Pow2(|v| - 1)
  {
    var k := |v| - 1;
    assert v == v[..k] + [v[k]];
    NatConcat(v[..k], [v[k]]);
    NatBound(v[..k]);
    assert [v[k]][1..] == [];
    assert Nat([v[k]]) == One(v[k]);
  }

  lemma IntRange(v: Vec, signed: bool)
    requires v != [] && IsDefined(v)
    ensures signed ==> -Pow2(|v| - 1) <= Int(v, signed) < Pow2(|v| - 1)
    ensures !signed ==> 0 <= Int(v, signed) < Pow2(|v|)
  {
    NatBound(v);
    NatTop(v);
    assert Pow2(|v|) == 2 * Pow2(|v| - 1);
  }

  /** Add two vectors of one length bit by bit, from the least significant bit up. */
  function Add(a: Vec, b: Vec, carry: bool): (r: Vec)
    requires |a| == |b|
    ensures |r| == |a| && IsDefined(r)
  {
    if a == [] then []
    else
      var ones := One(a[0]) + One(b[0]) + if carry then 1 else 0;
      [if ones % 2 == 1 then V1 else V0] + Add(a[1..], b[1..], ones >= 2)
  }

  lemma {:induction false} AddIsSum(a: Vec, b: Vec, carry: bool) returns (out: nat)
    requires |a| == |b|
    ensures Nat(Add(a, b, carry)) + Pow2(|a|) * out == Nat(a) + Nat(b) + if carry then 1 else 0
    ensures out <= 1
  {
    hide Nat, Pow2, Add, One;
    if a == [] {
      NothingAdded(carry);
      assert b == [];
      out := if carry then 1 else 0;
    } else {
      var ones := One(a[0]) + One(b[0]) + if carry then 1 else 0;
      out := AddIsSum(a[1..], b[1..], ones >= 2);
      NatFirst(a);
      NatFirst(b);
      AddFirst(a, b, carry);
      Doubled(Pow2(|a| - 1), out);
    }
  }

  lemma NothingAdded(carry: bool)
    ensures Nat([]) == Nat(Add([], [], carry)) == 0 && Pow2(0) == 1
  {
  }

  lemma NatFirst(v: Vec)
    requires v != []
    ensures Nat(v) == One(v[0]) + 2 * Nat(v[1..]) && Pow2(|v|) == 2 * Pow2(|v| - 1)
  {
  }

  lemma AddFirst(a: Vec, b: Vec, carry: bool)
    requires |a| == |b| && a != []
    ensures var ones := One(a[0]) + One(b[0]) + if carry then 1 else 0;
      && 0 <= ones <= 3
      && Nat(Add(a, b, carry)) == ones % 2 + 2 * Nat(Add(a[1..], b[1..], ones >= 2))
  {
    var ones := One(a[0]) + One(b[0]) + if carry then 1 else 0;
    var rest := Add(a[1..], b[1..], ones >= 2);
    var sum := [if ones % 2 == 1 then V1 else V0] + rest;
    assert Add(a, b, carry) == sum && sum[1..] == rest;
    hide Add;
  }

  /** Repeating the sign bit, or zeros on top of an unsigned vector, keeps the value. */
  lemma ExtendKeepsInt(v: Vec, n: nat, signed: bool)
    requires v != [] && IsDefined(v)
    ensures var pad := if Negative(v, signed) then V1 else V0;
      Int(v + Fill(pad, n), signed) == Int(v, signed) && IsDefined(v + Fill(pad, n))
  {
    hide Nat, Pow2;
    var neg := Negative(v, signed);
    var fill := Fill(if neg then V1 else V0, n);
    NatConcat(v, fill);
    if n == 0 {
      assert v + fill == v;
    } else if neg {
      NatIsMax(fill);
      Pow2Sum(|v|, n);
      var p, q := Pow2(|v|), Pow2(n);
      assert p * (q - 1) == p * q - p;
    } else {
      NatIsZero(fill);
    }
  }
}
