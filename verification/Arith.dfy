/** Products, quotients and remainders, one small step per lemma. */
module Arith {

  lemma Dist(x: int, y: int, z: int)
    ensures (x + y) * z == x * z + y * z
    ensures (x - y) * z == x * z - y * z
  {}

  lemma Swap(x: int, y: int, z: int)
    ensures (x * y) * z == y * (x * z) == (x * z) * y == x * (y * z)
  {}

  /** Multiplying by a factor keeps the order. */
  lemma Le(x: int, y: int, b: nat)
    requires x <= y
    ensures x * b <= y * b
  {}

  lemma Lt(x: int, y: int, b: nat)
    requires x < y && b > 0
    ensures x * b < y * b
  {}

  lemma LtIff(x: int, y: int, b: nat)
    requires b > 0
    ensures x < y <==> x * b < y * b
  {
    if x < y { Lt(x, y, b); } else { Le(y, x, b); }
  }

  lemma ProductBelow(x: nat, y: nat, a: nat, c: nat)
    requires x < a && y < c
    ensures x * y < a * c
  {
    Le(x, a, y);
    Lt(y, c, a);
  }

  lemma SplitBy(n: nat, b: nat)
    requires b > 0
    ensures n == n / b * b + n % b && n / b >= 0
  {
    if n / b < 0 { Le(n / b, -1, b); assert false; }
  }

  /** A quotient n / d fits below w exactly when n does below w * d. */
  lemma QuotientBelow(n: nat, d: nat, w: nat)
    requires d > 0
    ensures 0 <= n / d && (n / d < w <==> n < w * d)
  {
    var q := n / d;
    SplitBy(n, d);
    if q < w { Le(q + 1, w, d); Dist(q, 1, d); } else { Le(w, q, d); }
  }

  /** Quotient and remainder are the only pair with these two properties. */
  lemma DivModUnique(x: int, d: int, q: int, r: int)
    requires d > 0 && x == q * d + r && 0 <= r < d
    ensures x / d == q && x % d == r
  {
    var z := x / d - q;
    assert z * d == x / d * d - q * d == r - x % d;
    assert z >= 1 ==> z * d >= d;
    assert z <= -1 ==> z * d <= -d;
  }

  lemma QuotientIff(x: int, d: int, q: int)
    requires d > 0
    ensures x / d == q <==> q * d <= x < q * d + d
  {
    if q * d <= x < q * d + d { DivModUnique(x, d, q, x - q * d); }
    assert x == x / d * d + x % d;
  }

  lemma ExactDivision(x: nat, d: nat, c: nat)
    requires d > 0 && x == c * d
    ensures x % d == 0 && x / d == c && x == d * (x / d)
  {
    DivModUnique(x, d, c, 0);
  }

  /** Dividing twice is dividing once by the product. */
  lemma NestedDiv(x: nat, a: nat, c: nat)
    requires a > 0 && c > 0
    ensures a * c > 0 && x / a / c == x / (a * c)
  {
    var y := x / a;
    var q, r := y / c, y % c;
    var s := r * a + x % a;
    assert x == y * a + x % a;
    assert y * a == q * (c * a) + r * a by { Dist(q * c, r, a); Swap(q, c, a); }
    Le(r, c - 1, a);
    Dist(c, 1, a);
    DivModUnique(x, a * c, q, s);
  }

  /** n * d, with n split into quotient and remainder. */
  lemma SplitDividend(n: nat, b: nat, d: nat)
    requires b > 0
    ensures n * d == ((n / b) * d) * b + (n % b) * d
  {
    var q, r := n / b, n % b;
    assert n == q * b + r;
    Dist(q * b, r, d);
    Swap(q, b, d);
  }

  lemma ModScale(x: nat, w: nat, u: nat)
    requires w > 0 && u > 0
    ensures w * u > 0 && x * u % (w * u) == x % w * u <= w * u - u
  {
    var q, r := x / w, x % w;
    assert x == q * w + r;
    Dist(q * w, r, u);
    Swap(q, w, u);
    Le(r, w - 1, u);
    Dist(w, 1, u);
    DivModUnique(x * u, w * u, q, r * u);
  }

  lemma CancelFactor(x: nat, d: nat, c: nat)
    requires d > 0 && c > 0
    ensures c * d > 0 && (c * x) / (c * d) == x / d
  {
    var q, r := x / d, x % d;
    assert x == q * d + r;
    assert x * c == q * (d * c) + r * c by { Dist(q * d, r, c); Swap(q, d, c); }
    Lt(r, d, c);
    DivModUnique(c * x, c * d, q, r * c);
  }
}
