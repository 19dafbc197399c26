/** Facts about products, quotients and remainders that the solver is not left to find. */
module DivMod {

  lemma DivModUnique(k: int, m: int, q: int, r: int)
    requires m > 0 && 0 <= r < m && k == q * m + r
    ensures k / m == q && k % m == r
  {
    var q', r' := k / m, k % m;
    assert k == m * q' + r';
    assert (q' - q) * m == r - r';
    if q' > q {
      MulMonotone(1, q' - q, m);
    } else if q' < q {
      MulMonotone(q' - q, -1, m);
    }
  }

  lemma DivNonNegative(a: nat, b: nat)
    requires b > 0
    ensures a / b >= 0
  {
  }

  lemma MulMonotone(a: int, b: int, m: int)
    requires a <= b && m >= 0
    ensures a * m <= b * m
  {
    assert b * m - a * m == (b - a) * m;
  }

  lemma DivShift(n: int, x: nat, m: nat)
    requires m > 0
    ensures (n * m + x) / m == n + x / m && (n * m + x) % m == x % m
  {
    assert (n + x / m) * m == n * m + x / m * m;
    DivModUnique(n * m + x, m, n + x / m, x % m);
  }

  lemma DivBelow(x: nat, count: nat, m: nat)
    requires m > 0 && x < count * m
    ensures x / m < count
  {
    if x / m >= count {
      MulMonotone(count, x / m, m);
    }
  }

  lemma Distribute(a: nat, b: nat, m: nat)
    ensures (a + b) * m == a * m + b * m
  {
  }

  lemma MulAssoc(a: nat, b: nat, c: nat)
    ensures a * b * c == a * (b * c)
  {
  }

  lemma ModMul(a: int, b: int, m: int)
    requires m > 0
    ensures (a % m) * b % m == a * b % m
  {
    var q, r := a / m, a % m;
    var q', r' := r * b / m, r * b % m;
    assert a * b == (q * b + q') * m + r' by {
      assert a * b == q * m * b + r * b;
      assert q * m * b == q * b * m;
      assert (q * b + q') * m == q * b * m + q' * m;
    }
    DivModUnique(a * b, m, q * b + q', r');
  }

  lemma DivTwice(x: nat, a: nat, b: nat)
    requires a > 0 && b > 0
    ensures x / a / b == x / (a * b)
  {
    var y := x / a;
    DivNonNegative(x, a);
    DivTwiceOf(x, a, b, y, y / b, y % b, x % a);
  }

  lemma DivTwiceOf(x: nat, a: nat, b: nat, y: nat, q: nat, r: nat, l: nat)
    requires l < a && r < b && x == y * a + l && y == q * b + r
    ensures x / (a * b) == q
  {
    MulMonotone(r + 1, b, a);
    Distribute(q * b, r, a);
    MulAssoc(q, b, a);
    DivModUnique(x, a * b, q, r * a + l);
  }
}
