/** Facts about products, quotients and powers that several modules share. */
module Arithmetic {

  lemma MulMonotone(x: int, y: int, d: int)
    requires x <= y && d >= 0
    ensures x * d <= y * d
  {
  }

  lemma MulDistributes(x: int, y: int, z: int)
    ensures (x + y) * z == x * z + y * z == z * x + z * y
  {
  }

  lemma MulAssociates(x: int, y: int, z: int)
    ensures (x * y) * z == x * (y * z) == (x * z) * y
  {
  }

  lemma FourFactors(a: int, b: int, c: int, d: int)
    ensures a * b * (c * d) == (c * a) * (d * b) == (a * c) * (b * d)
  {
    MulAssociates(a * b, c, d);
    MulAssociates(a, b, c);
    MulAssociates(a * c, b, d);
  }

  lemma MulStrict(x: int, y: int, d: int)
    requires x < y && d > 0
    ensures x * d + d <= y * d
  {
    MulMonotone(x + 1, y, d);
  }

  /** Quotient and remainder are determined by their defining equation. */
  lemma DivUnique(a: int, d: int, q: int, r: int)
    requires d > 0 && 0 <= r < d && a == q * d + r
    ensures a / d == q && a % d == r
  {
    var k := a / d;
    assert a == k * d + a % d;
    if k < q {
      MulStrict(k, q, d);
      assert false;
    } else if q < k {
      MulStrict(q, k, d);
      assert false;
    }
  }

  lemma DivLess(a: int, d: int, n: int)
    requires 0 <= a < d * n && d > 0
    ensures 0 <= a / d < n
  {
    if a / d >= n {
      MulMonotone(n, a / d, d);
      assert false;
    }
  }

  lemma DivMonotone(a: int, b: int, d: int)
    requires a <= b && d > 0
    ensures a / d <= b / d
  {
    if a / d > b / d {
      MulStrict(b / d, a / d, d);
      assert false;
    }
  }

  lemma DivSmaller(v: nat, b: nat)
    requires v > 0 && b > 1
    ensures v / b < v && v == v / b * b + v % b
  {
    MulMonotone(2, b, v / b);
  }

  /** Dividing twice is dividing by the product. */
  lemma DivDiv(a: int, d: int, e: int)
    requires a >= 0 && d > 0 && e > 0
    ensures d * e > 0 && (a / d) / e == a / (d * e)
  {
    var q, r := a / d, a % d;
    var s, t := q / e, q % e;
    MulStrict(0, e, d);
    assert a == (s * e + t) * d + r;
    assert (s * e + t) * d == s * (d * e) + t * d;
    MulStrict(t, e, d);
    MulMonotone(0, t, d);
    DivUnique(a, d * e, s, t * d + r);
  }

  /** Scaling [0, base) down to [0, n) by multiplying and dividing reaches every number. */
  lemma ScalingOnto(w: nat, n: nat, base: nat) returns (h: nat)
    requires w < n <= base
    ensures h < base && h * n / base == w
  {
    var a := w * base + n - 1;
    h := a / n;
    assert h * n == a - a % n;
    DivUnique(h * n, base, w, n - 1 - a % n);
    if h >= base {
      MulMonotone(base, h, n);
      MulStrict(w, n, base);
      assert false;
    }
  }

  /** Rounding a quotient up and halving it, rounded up, is rounding up the quotient by twice as much. */
  lemma RoundUpHalves(n: nat, p: nat)
    requires p > 0
    ensures ((n + p - 1) / p + 1) / 2 == (n + 2 * p - 1) / (2 * p)
  {
    var q, r := (n + p - 1) / p, (n + p - 1) % p;
    assert n + p - 1 == q * p + r;
    assert (q + 1) * p == q * p + p;
    DivUnique(n + 2 * p - 1, p, q + 1, r);
    DivDiv(n + 2 * p - 1, p, 2);
  }

  function Pow(b: nat, k: nat): nat {
    if k == 0 then 1 else b * Pow(b, k - 1)
  }

  lemma PowStep(b: nat, k: nat)
    ensures Pow(b, 0) == 1 && Pow(b, k + 1) == b * Pow(b, k)
  {
  }

  lemma {:induction false} PowPositive(b: nat, k: nat)
    requires b > 0
    ensures Pow(b, k) > 0
  {
    if k > 0 {
      PowPositive(b, k - 1);
      MulStrict(0, b, Pow(b, k - 1));
    }
  }

  lemma {:induction false} PowAdd(b: nat, j: nat, k: nat)
    ensures Pow(b, j + k) == Pow(b, j) * Pow(b, k)
  {
    if j == 0 {
      assert Pow(b, 0) * Pow(b, k) == Pow(b, k);
    } else {
      PowAdd(b, j - 1, k);
      assert b * (Pow(b, j - 1) * Pow(b, k)) == (b * Pow(b, j - 1)) * Pow(b, k);
    }
  }

  lemma PowMonotone(b: nat, j: nat, k: nat)
    requires b > 0 && j <= k
    ensures Pow(b, j) <= Pow(b, k)
  {
    PowPositive(b, k - j);
    MulMonotone(1, Pow(b, k - j), Pow(b, j));
    PowAdd(b, k - j, j);
  }
}
