/** Remainders, for counters that wrap and slots that are reused. */
module Modular {

  lemma Remainder(a: nat, q: nat, r: nat, m: nat)
    requires a == q * m + r && r < m
    ensures a % m == r
  {
    var e: int := a / m - q;
    assert a == a / m * m + a % m;
    assert e * m == r - a % m;
    assert e > 0 ==> e * m >= m;
    assert e < 0 ==> e * m <= 0 - m;
  }

  lemma SameRemainder(a: nat, q: nat, m: nat)
    requires 0 < m
    ensures (a + q * m) % m == a % m
  {
    var t := a / m;
    assert a == t * m + a % m;
    Remainder(a + q * m, t + q, a % m, m);
  }

  lemma AddModulo(a: nat, b: nat, m: nat)
    requires 0 < m
    ensures (a % m + b) % m == (a + b) % m
  {
    var q := a / m;
    assert a == q * m + a % m;
    SameRemainder(a % m + b, q, m);
  }

  lemma Wrapped(a: nat, m: nat)
    requires a < 2 * m
    ensures a % m == if a < m then a else a - m
  {
    Remainder(a, if a < m then 0 else 1, if a < m then a else a - m, m);
  }

  lemma AroundTheCircle(x: nat, k: nat, m: nat)
    requires x < m && k < m
    ensures ((x + k) % m + m - k) % m == x && ((x + m - k) % m + k) % m == x
  {
    var up, down := (x + k) % m, (x + m - k) % m;
    Wrapped(x + k, m);
    Wrapped(x + m - k, m);
    Wrapped(up + m - k, m);
    Wrapped(down + k, m);
  }

  /** Counters less than one lap apart use different slots. */
  lemma SlotsDiffer(i: nat, j: nat, n: nat)
    requires i < j < i + n
    ensures i % n != j % n
  {
    var d := j / n - i / n;
    assert j - i == d * n + (j % n - i % n) by {
      assert i == i / n * n + i % n && j == j / n * n + j % n;
    }
    assert d <= 0 ==> d * n <= 0;
    assert d >= 1 ==> d * n >= n;
  }

  /** Reducing by a multiple of the modulus first changes nothing. */
  lemma Nested(a: nat, big: nat, m: nat)
    requires 0 < m && 0 < big && big % m == 0
    ensures a % big % m == a % m
  {
    var k, q := big / m, a / big;
    assert big == k * m;
    assert a == q * big + a % big;
    assert q * big == q * k * m;
    SameRemainder(a % big, q * k, m);
  }

  /** Numbers that differ by a multiple of the modulus have the same remainder. */
  lemma SameClass(a: nat, b: nat, e: int, m: nat)
    requires 0 < m && a == b + e * m
    ensures a % m == b % m
  {
    if e >= 0 {
      SameRemainder(b, e, m);
    } else {
      var up := 0 - e;
      assert b == a + up * m;
      SameRemainder(a, up, m);
    }
  }
}
