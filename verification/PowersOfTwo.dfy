/** Powers of two and arithmetic modulo them. */
module PowersOfTwo {

  function Pow2(n: nat): (p: int)
    ensures p > 0
  {
    if n == 0 then 1 else 2 * Pow2(n - 1)
  }

  function Wrap(x: int, width: nat): nat {
    x % Pow2(width)
  }

  lemma {:induction false} Pow2Sum(m: nat, n: nat)
    ensures Pow2(m + n) == Pow2(m) * Pow2(n)
  {
    if m > 0 {
      Pow2Sum(m - 1, n);
      assert Pow2(m) * Pow2(n) == 2 * (Pow2(m - 1) * Pow2(n));
    }
  }

  lemma Pow2Grows(m: nat, n: nat)
    requires m <= n
    ensures Pow2(m) <= Pow2(n)
    decreases n
  {
    if m < n {
      Pow2Grows(m, n - 1);
    }
  }

  lemma Product(a: int, b: int)
    requires a >= 0 && b >= 0
    ensures a * b >= 0
  {
  }

  lemma MultipleBelow(d: int, m: int)
    requires m > 0
    ensures d >= 1 ==> d * m >= m
    ensures d <= -1 ==> d * m <= -m
  {
    if d >= 1 {
      Product(d - 1, m);
      assert (d - 1) * m == d * m - m;
    } else if d <= -1 {
      Product(-d - 1, m);
      assert (-d - 1) * m == -(d * m) - m;
    }
  }

  lemma ModUnique(x: int, q: int, r: int, m: int)
    requires m > 0 && x == q * m + r && 0 <= r < m
    ensures x % m == r
  {
    var d := x / m - q;
    assert d * m == (x / m) * m - q * m;
    assert x == (x / m) * m + x % m;
    MultipleBelow(d, m);
  }

  lemma WrapShift(x: int, k: int, width: nat)
    ensures Wrap(x + k * Pow2(width), width) == Wrap(x, width)
  {
    var m := Pow2(width);
    var q := x / m;
    assert x == q * m + x % m;
    assert x + k * m == (q + k) * m + x % m;
    ModUnique(x + k * m, q + k, x % m, m);
  }

  lemma Quotient(x: int, width: nat) returns (q: int)
    ensures Wrap(x, width) == x + q * Pow2(width)
  {
    var m := Pow2(width);
    q := -(x / m);
    assert x == (x / m) * m + x % m;
    assert q * m == -((x / m) * m);
  }

  lemma WrapSum(x: int, y: int, width: nat)
    ensures Wrap(Wrap(x, width) + Wrap(y, width), width) == Wrap(x + y, width)
    ensures Wrap(Wrap(x, width) - Wrap(y, width), width) == Wrap(x - y, width)
  {
    hide Wrap, Pow2;
    var p := Quotient(x, width);
    var q := Quotient(y, width);
    var m := Pow2(width);
    assert x + p * m + (y + q * m) == x + y + (p + q) * m;
    assert x + p * m - (y + q * m) == x - y + (p - q) * m;
    WrapShift(x + y, p + q, width);
    WrapShift(x - y, p - q, width);
  }

  lemma WrapProduct(x: int, y: int, width: nat)
    ensures Wrap(Wrap(x, width) * Wrap(y, width), width) == Wrap(x * y, width)
  {
    hide Wrap, Pow2;
    var p := Quotient(x, width);
    var q := Quotient(y, width);
    var m := Pow2(width);
    var k := p * y + x * q + p * q * m;
    Expand(x, y, p, q, m);
    WrapShift(x * y, k, width);
  }

  lemma Expand(x: int, y: int, p: int, q: int, m: int)
    ensures (x + p * m) * (y + q * m) == x * y + (p * y + x * q + p * q * m) * m
  {
    var a, b := p * m, q * m;
    assert (x + a) * (y + b) == x * y + a * y + x * b + a * b;
    assert a * y == (p * y) * m;
    assert x * b == (x * q) * m;
    assert a * b == (p * q * m) * m;
    assert (p * y + x * q + p * q * m) * m == (p * y) * m + (x * q) * m + (p * q * m) * m;
  }

  lemma WrapNot(x: int, width: nat)
    ensures Wrap(Pow2(width) - 1 - Wrap(x, width), width) == Wrap(-x - 1, width)
  {
    hide Wrap, Pow2;
    var q := Quotient(x, width);
    var m := Pow2(width);
    assert m - 1 - (x + q * m) == -x - 1 + (1 - q) * m;
    WrapShift(-x - 1, 1 - q, width);
  }

  lemma ProductBelow(x: int, y: int, a: int, b: int)
    requires 0 <= x < a && 0 <= y < b
    ensures 0 <= x * y < a * b
  {
    Product(x, y);
    Product(a - 1 - x, y);
    Product(a, b - 1 - y);
    Distribute(a, x, y);
    Distribute(b, y, a);
  }

  lemma Distribute(a: int, x: int, y: int)
    ensures (a - 1 - x) * y == a * y - y - x * y
    ensures y * (a - 1 - x) == y * a - y - y * x
  {
  }

  lemma ProductBound(x: int, y: int, a: int, b: int)
    requires -a <= x <= a && -b <= y <= b
    ensures -(a * b) <= x * y <= a * b
  {
    assert (a - x) * (b + y) >= 0 && (a + x) * (b - y) >= 0;
    assert (a - x) * (b - y) >= 0 && (a + x) * (b + y) >= 0;
    assert (a - x) * (b + y) == a * b + a * y - x * b - x * y;
    assert (a + x) * (b - y) == a * b - a * y + x * b - x * y;
    assert (a - x) * (b - y) == a * b - a * y - x * b + x * y;
    assert (a + x) * (b + y) == a * b + a * y + x * b + x * y;
  }

  lemma DivUnique(y: int, q: int, r: int, m: int)
    requires m > 0 && y == q * m + r && 0 <= r < m
    ensures y / m == q
  {
    var d := y / m - q;
    assert d * m == (y / m) * m - q * m;
    assert y == (y / m) * m + y % m;
    MultipleBelow(d, m);
  }

  /** The high part of a number is its quotient. */
  lemma HighQuotient(x: int, p: int, h: int)
    requires 0 <= x < p
    ensures (x + p * h) / p == h
  {
    assert p * h == h * p;
    DivUnique(x + p * h, h, x, p);
  }

  lemma Larger(p: int, x: int, q: int)
    requires p >= 1 && x < q
    ensures p * x < p * q
  {
    assert p * (q - x) == p * q - p * x;
    MultipleBelow(q - x, p);
    assert (q - x) * p == p * (q - x);
  }

  lemma Times(x: int, q: int, h: int, p: int)
    ensures (x + q * h) * p == h * (p * q) + p * x
  {
    assert (x + q * h) * p == x * p + q * h * p;
    assert q * h * p == h * (p * q) by {
      assert q * h == h * q;
      assert (h * q) * p == h * (q * p);
      assert q * p == p * q;
    }
  }

  /** What is left of a multiple of `p` modulo `p * q`. */
  lemma LowMultiple(x: int, q: int, h: int, p: int)
    requires p >= 1 && 0 <= x < q
    ensures ((x + q * h) * p) % (p * q) == p * x
  {
    Times(x, q, h, p);
    Larger(p, x, q);
    Product(p, x);
    Product(p, q);
    ModUnique((x + q * h) * p, h, p * x, p * q);
  }

  lemma Regroup(x: int, p: int, q: int)
    ensures x * (p * q) == (x * q) * p
  {
    assert x * (q * p) == (x * q) * p;
    assert q * p == p * q;
  }

  lemma NothingLow(x: int, p: int, q: int)
    requires p >= 1
    ensures (x * (p * q)) % p == 0
  {
    Regroup(x, p, q);
    var y := x * q;
    ModUnique(y * p, y, 0, p);
  }
}
