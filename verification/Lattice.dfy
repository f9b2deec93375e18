/** Errors as numbers ordered by divisibility (include/slabflux/compute/axiomatic_vector.hpp:66-153). */
module Lattice {
  import opened Words

  const NO_ERROR: nat := 1
  const INVALID_STATE: nat := 2
  const LANE_COUNT_MISMATCH: nat := 3
  const INVALID_MASK: nat := 10
  const TOPOLOGY_VIOLATION: nat := 30

  function Gcd(a: nat, b: nat): nat
    decreases b
  {
    if b == 0 then a else Gcd(b, a % b)
  }

  /** The loop of the source. */
  method GcdLoop(x: nat, y: nat) returns (a: nat)
    ensures a == Gcd(x, y)
  {
    a := x;
    var b: nat := y;
    while b != 0
      invariant Gcd(a, b) == Gcd(x, y)
    {
      var t := b;
      b := a % b;
      a := t;
    }
  }

  function Meet(a: nat, b: nat): nat { Gcd(a, b) }

  /** The product wraps at 64 bits, as in the source. */
  function Join(a: nat, b: nat): nat {
    if a == 0 || b == 0 then 0 else GcdPositive(a, b); a * b % TWO_64 / Gcd(a, b)
  }

  predicate Has(state: nat, error: nat)
    requires error != 0
  {
    state % error == 0
  }

  // ---------------------------------------------------------------- divisibility

  predicate Divides(d: nat, n: nat) { if d == 0 then n == 0 else n % d == 0 }

  lemma Multiple(d: nat, k: int, n: nat)
    requires n == d * k
    ensures Divides(d, n)
  {
    if d > 0 {
      var e: int := n / d - k;
      assert n == d * (n / d) + n % d;
      assert d * e == 0 - n % d by { Spread(d, n / d, k); }
      assert e >= 1 ==> d * e >= d;
      assert e <= -1 ==> d * e <= 0 - d;
    }
  }

  lemma Spread(d: int, x: int, y: int)
    ensures d * (x - y) == d * x - d * y
  {
  }

  /** The cofactor of a divisor. */
  lemma Cofactor(d: nat, n: nat) returns (k: nat)
    requires Divides(d, n)
    ensures n == d * k
  {
    k := if d == 0 then 0 else n / d;
  }

  lemma Transitive(a: nat, b: nat, c: nat)
    requires Divides(a, b) && Divides(b, c)
    ensures Divides(a, c)
  {
    hide Divides;
    var j := Cofactor(a, b);
    var k := Cofactor(b, c);
    assert a * j * k == a * (j * k);
    Multiple(a, j * k, c);
  }

  lemma Antisymmetric(a: nat, b: nat)
    requires Divides(a, b) && Divides(b, a)
    ensures a == b
  {
    if a > 0 && b > 0 {
      Below(a, b);
      Below(b, a);
    }
  }

  lemma Below(a: nat, b: nat)
    requires Divides(a, b) && b > 0
    ensures 0 < a <= b
  {
    var k := Cofactor(a, b);
    assert k >= 1 ==> a * k >= a;
  }

  lemma Reflexive(a: nat)
    ensures Divides(a, a)
  {
    Multiple(a, 1, a);
  }

  lemma Combined(d: nat, a: nat, b: nat, x: int, y: int, n: nat)
    requires Divides(d, a) && Divides(d, b) && n == a * x + b * y
    ensures Divides(d, n)
  {
    hide Divides;
    var j := Cofactor(d, a);
    var k := Cofactor(d, b);
    assert d * j * x == d * (j * x) && d * k * y == d * (k * y);
    Multiple(d, j * x + k * y, n);
  }

  // ---------------------------------------------------------------- the greatest common divisor

  lemma {:induction false} GcdPositive(a: nat, b: nat)
    requires a != 0 || b != 0
    ensures Gcd(a, b) > 0
    decreases b
  {
    if b == 0 {
    } else {
      GcdPositive(b, a % b);
    }
  }

  lemma {:induction false} GcdDivides(a: nat, b: nat)
    ensures Divides(Gcd(a, b), a) && Divides(Gcd(a, b), b)
    decreases b
  {
    hide Divides;
    if b == 0 {
      Reflexive(a);
      Multiple(a, 0, 0);
    } else {
      GcdDivides(b, a % b);
      assert a == b * (a / b) + a % b * 1;
      Combined(Gcd(a, b), b, a % b, a / b, 1, a);
    }
  }

  lemma {:induction false} Bezout(a: nat, b: nat) returns (x: int, y: int)
    ensures a * x + b * y == Gcd(a, b)
    decreases b
  {
    if b == 0 {
      x, y := 1, 0;
    } else {
      var u, v := Bezout(b, a % b);
      var q := a / b;
      Rearranged(a, b, q, a % b, u, v);
      x, y := v, u - q * v;
    }
  }

  lemma Rearranged(a: int, b: int, q: int, r: int, u: int, v: int)
    requires a == b * q + r
    ensures b * u + r * v == a * v + b * (u - q * v)
  {
    assert a * v == b * (q * v) + r * v by { assert (b * q + r) * v == b * (q * v) + r * v; }
    Spread(b, u, q * v);
  }

  /** Meet is the greatest lower bound: what divides it is exactly what divides both. */
  lemma MeetIsGreatest(d: nat, a: nat, b: nat)
    ensures Divides(d, Meet(a, b)) <==> Divides(d, a) && Divides(d, b)
  {
    hide Divides, Gcd;
    GcdDivides(a, b);
    if Divides(d, Gcd(a, b)) {
      Transitive(d, Gcd(a, b), a);
      Transitive(d, Gcd(a, b), b);
    }
    if Divides(d, a) && Divides(d, b) {
      var x, y := Bezout(a, b);
      Combined(d, a, b, x, y, Gcd(a, b));
    }
  }

  // ---------------------------------------------------------------- the least common multiple

  /** Without overflow, join times meet is the product. */
  lemma JoinTimesMeet(a: nat, b: nat)
    requires 0 < a && 0 < b && a * b < TWO_64
    ensures Join(a, b) * Gcd(a, b) == a * b
    ensures Divides(a, Join(a, b)) && Divides(b, Join(a, b))
  {
    hide Divides, Gcd;
    var g := Gcd(a, b);
    GcdPositive(a, b);
    GcdDivides(a, b);
    var j := Cofactor(g, a);
    var k := Cofactor(g, b);
    assert a * b == a * k * g by { assert a * (g * k) == a * k * g; }
    assert a * b == b * j * g by { assert g * j * b == b * j * g; }
    Quotient(a * b, a * k, g);
    Quotient(a * b, b * j, g);
    Multiple(a, k, Join(a, b));
    Multiple(b, j, Join(a, b));
  }

  lemma Quotient(n: nat, k: nat, g: nat)
    requires 0 < g && n == k * g && n < TWO_64
    ensures n % TWO_64 / g == k
  {
    var e: int := n / g - k;
    assert n == g * (n / g) + n % g;
    assert g * e == 0 - n % g by { Spread(g, n / g, k); }
    assert e >= 1 ==> g * e >= g;
    assert e <= -1 ==> g * e <= 0 - g;
  }

  /** Join is the least upper bound: what it divides is exactly what both divide. */
  lemma JoinIsLeast(a: nat, b: nat, m: nat)
    requires a * b < TWO_64
    ensures Divides(Join(a, b), m) <==> Divides(a, m) && Divides(b, m)
  {
    if a > 0 && b > 0 {
      hide Divides, Gcd, Join;
      JoinTimesMeet(a, b);
      if Divides(Join(a, b), m) {
        Transitive(a, Join(a, b), m);
        Transitive(b, Join(a, b), m);
      }
      if Divides(a, m) && Divides(b, m) {
        CommonMultiple(a, b, m);
      }
    }
    assert a == 0 || b == 0 ==> (Divides(0, m) ==> m == 0);
  }

  lemma CommonMultiple(a: nat, b: nat, m: nat)
    requires 0 < a && 0 < b && a * b < TWO_64
    requires Divides(a, m) && Divides(b, m)
    ensures Divides(Join(a, b), m)
  {
    hide Divides, Gcd, Join;
    var l, g := Join(a, b), Gcd(a, b);
    GcdPositive(a, b);
    JoinTimesMeet(a, b);
    var s := Cofactor(a, m);
    var t := Cofactor(b, m);
    var x, y := Bezout(a, b);
    var k := t * x + s * y;
    assert m * g == a * b * k by { Crossed(a, b, m, s, t, x, y); }
    assert m * g == l * k * g by { assert l * g * k == l * k * g; }
    Cancelled(m, l * k, g);
    Multiple(l, k, m);
  }

  lemma Crossed(a: int, b: int, m: int, s: int, t: int, x: int, y: int)
    requires m == a * s && m == b * t
    ensures m * (a * x + b * y) == a * b * (t * x + s * y)
  {
    assert m * (a * x) == a * b * (t * x) by { assert b * t * (a * x) == a * b * (t * x); }
    assert m * (b * y) == a * b * (s * y) by { assert a * s * (b * y) == a * b * (s * y); }
  }

  lemma Cancelled(x: int, y: int, g: nat)
    requires 0 < g && x * g == y * g
    ensures x == y
  {
    Spread(g, x, y);
    assert x > y ==> g * (x - y) > 0;
    assert x < y ==> g * (x - y) < 0;
  }

  // ---------------------------------------------------------------- the divisors of thirty

  predicate IsNode(n: nat) { Divides(n, TOPOLOGY_VIOLATION) }

  lemma NodeBound(a: nat, b: nat)
    requires IsNode(a) && IsNode(b)
    ensures 0 < a <= 30 && 0 < b <= 30 && a * b <= 900 < TWO_64
  {
    Below(a, 30);
    Below(b, 30);
    assert a * b <= 30 * b <= 30 * 30;
  }

  /** The nodes are closed under join and meet. */
  lemma Closed(a: nat, b: nat)
    requires IsNode(a) && IsNode(b)
    ensures IsNode(Join(a, b)) && IsNode(Meet(a, b))
    ensures a * b < TWO_64
  {
    hide Divides, Join, Meet;
    NodeBound(a, b);
    JoinIsLeast(a, b, 30);
    Reflexive(Meet(a, b));
    MeetIsGreatest(Meet(a, b), a, b);
    Transitive(Meet(a, b), a, 30);
  }

  lemma JoinUpper(a: nat, b: nat)
    requires a * b < TWO_64
    ensures Divides(a, Join(a, b)) && Divides(b, Join(a, b))
  {
    hide Divides, Join;
    Reflexive(Join(a, b));
    JoinIsLeast(a, b, Join(a, b));
  }

  lemma MeetLower(a: nat, b: nat)
    ensures Divides(Meet(a, b), a) && Divides(Meet(a, b), b)
  {
    hide Divides, Meet;
    Reflexive(Meet(a, b));
    MeetIsGreatest(Meet(a, b), a, b);
  }

  lemma JoinCommutes(a: nat, b: nat)
    requires IsNode(a) && IsNode(b)
    ensures Join(a, b) == Join(b, a) && Meet(a, b) == Meet(b, a)
  {
    hide Divides, Join, Meet, IsNode;
    Closed(a, b);
    Closed(b, a);
    JoinUpper(a, b);
    JoinUpper(b, a);
    JoinIsLeast(a, b, Join(b, a));
    JoinIsLeast(b, a, Join(a, b));
    Antisymmetric(Join(a, b), Join(b, a));
    MeetLower(a, b);
    MeetLower(b, a);
    MeetIsGreatest(Meet(a, b), b, a);
    MeetIsGreatest(Meet(b, a), a, b);
    Antisymmetric(Meet(a, b), Meet(b, a));
  }

  lemma JoinAssociates(a: nat, b: nat, c: nat)
    requires IsNode(a) && IsNode(b) && IsNode(c)
    ensures Join(a, Join(b, c)) == Join(Join(a, b), c)
  {
    hide Divides, Join, IsNode;
    Closed(b, c);
    Closed(a, b);
    Closed(a, Join(b, c));
    Closed(Join(a, b), c);
    var l, r := Join(a, Join(b, c)), Join(Join(a, b), c);
    JoinUpper(a, Join(b, c));
    JoinUpper(Join(a, b), c);
    JoinIsLeast(b, c, l);
    JoinIsLeast(a, b, l);
    JoinIsLeast(Join(a, b), c, l);
    JoinIsLeast(a, b, r);
    JoinIsLeast(b, c, r);
    JoinIsLeast(a, Join(b, c), r);
    Antisymmetric(l, r);
  }

  lemma MeetAssociates(a: nat, b: nat, c: nat)
    ensures Meet(a, Meet(b, c)) == Meet(Meet(a, b), c)
  {
    hide Divides, Meet;
    var l, r := Meet(a, Meet(b, c)), Meet(Meet(a, b), c);
    MeetLower(a, Meet(b, c));
    MeetLower(Meet(a, b), c);
    MeetIsGreatest(l, b, c);
    MeetIsGreatest(l, a, b);
    MeetIsGreatest(l, Meet(a, b), c);
    MeetIsGreatest(r, a, b);
    MeetIsGreatest(r, b, c);
    MeetIsGreatest(r, a, Meet(b, c));
    Antisymmetric(l, r);
  }

  lemma Absorbs(a: nat, b: nat)
    requires IsNode(a) && IsNode(b)
    ensures Join(a, Meet(a, b)) == a && Meet(a, Join(a, b)) == a
  {
    hide Divides, Join, Meet, IsNode;
    Closed(a, b);
    Closed(a, Meet(a, b));
    Reflexive(a);
    MeetLower(a, b);
    JoinIsLeast(a, Meet(a, b), a);
    JoinUpper(a, Meet(a, b));
    Antisymmetric(Join(a, Meet(a, b)), a);
    JoinUpper(a, b);
    MeetIsGreatest(a, a, Join(a, b));
    MeetLower(a, Join(a, b));
    Antisymmetric(a, Meet(a, Join(a, b)));
  }

  /** The divisors of thirty with join and meet are a lattice. */
  lemma LatticeLaws(a: nat, b: nat, c: nat)
    requires IsNode(a) && IsNode(b) && IsNode(c)
    ensures IsNode(Join(a, b)) && IsNode(Meet(a, b))
    ensures Join(a, b) == Join(b, a) && Meet(a, b) == Meet(b, a)
    ensures Join(a, Join(b, c)) == Join(Join(a, b), c) && Meet(a, Meet(b, c)) == Meet(Meet(a, b), c)
    ensures Join(a, Meet(a, b)) == a && Meet(a, Join(a, b)) == a
    ensures Divides(a, b) <==> Join(a, b) == b
  {
    hide Divides, Join, Meet, IsNode;
    Closed(a, b);
    JoinCommutes(a, b);
    JoinAssociates(a, b, c);
    MeetAssociates(a, b, c);
    Absorbs(a, b);
    JoinUpper(a, b);
    Reflexive(b);
    JoinIsLeast(a, b, b);
    if Divides(a, b) {
      Antisymmetric(Join(a, b), b);
    }
  }

  // ---------------------------------------------------------------- a value with its error

  datatype Result<T> = Ok(value: T) | Panic

  datatype Validated<T> = Validated(manifold: T, state: nat)
  {
    predicate IsPure() { state == NO_ERROR }

    function ExtractOrPanic(): Result<T> { if IsPure() then Ok(manifold) else Panic }

    function Escalate(more: nat): Validated<T> { Validated(manifold, Join(state, more)) }
  }

  predicate IsPrime(p: nat) { p == 2 || p == 3 || p == 5 }

  lemma NodeIs(e: nat)
    requires IsNode(e)
    ensures e == 1 || e == 2 || e == 3 || e == 5 || e == 6 || e == 10 || e == 15 || e == 30
  {
    Below(e, 30);
    var k := Cofactor(e, 30);
    assert e > 15 ==> k == 1;
    assert 10 < e <= 15 ==> k == 2;
    assert 7 < e <= 10 ==> k == 3;
  }

  /** A node without a prime divides the rest of thirty, which is without it too. */
  lemma WithoutPrime(a: nat, p: nat)
    requires IsNode(a) && IsPrime(p) && a % p != 0
    ensures Divides(a, 30 / p) && 30 / p % p != 0
  {
    NodeIs(a);
  }

  /** The join has a prime error exactly when one of the two has it. */
  lemma JoinHasPrime(a: nat, b: nat, p: nat)
    requires IsNode(a) && IsNode(b) && IsPrime(p)
    ensures Has(Join(a, b), p) <==> Has(a, p) || Has(b, p)
  {
    hide Join, Gcd, IsNode;
    Closed(a, b);
    JoinUpper(a, b);
    if Has(a, p) {
      Transitive(p, a, Join(a, b));
    } else if Has(b, p) {
      Transitive(p, b, Join(a, b));
    } else {
      WithoutPrime(a, p);
      WithoutPrime(b, p);
      JoinIsLeast(a, b, 30 / p);
      if Has(Join(a, b), p) {
        Transitive(p, Join(a, b), 30 / p);
      }
    }
  }

  lemma Composites(n: nat)
    ensures Has(n, 6) <==> Has(n, 2) && Has(n, 3)
    ensures Has(n, 10) <==> Has(n, 2) && Has(n, 5)
    ensures Has(n, 15) <==> Has(n, 3) && Has(n, 5)
    ensures Has(n, 30) <==> Has(n, 6) && Has(n, 5)
  {
    CompositeJoins();
    hide Join;
    JoinIsLeast(2, 3, n);
    JoinIsLeast(2, 5, n);
    JoinIsLeast(3, 5, n);
    JoinIsLeast(6, 5, n);
  }

  lemma CompositeJoins()
    ensures Join(2, 3) == 6 && Join(2, 5) == 10 && Join(3, 5) == 15 && Join(6, 5) == 30
  {
    assert Gcd(2, 3) == Gcd(3, 2) == 1 && Gcd(2, 5) == Gcd(5, 2) == 1;
    assert Gcd(3, 5) == Gcd(5, 3) == Gcd(3, 2) && Gcd(6, 5) == Gcd(5, 1) == 1;
  }

  /** A number has an error exactly when it has every prime of it. */
  lemma HasByPrimes(n: nat, e: nat)
    requires IsNode(e)
    ensures e > 0
    ensures Has(n, e) <==> (Has(e, 2) ==> Has(n, 2)) && (Has(e, 3) ==> Has(n, 3)) && (Has(e, 5) ==> Has(n, 5))
  {
    NodeIs(e);
    Composites(n);
  }

  /** The join has an error, composite or not, exactly when each of its primes is in one of the two; so it
      can have a composite error that neither has. */
  lemma JoinHas(a: nat, b: nat, e: nat)
    requires IsNode(a) && IsNode(b) && IsNode(e)
    ensures e > 0
    ensures Has(Join(a, b), e) <==> forall p :: IsPrime(p) && Has(e, p) ==> Has(a, p) || Has(b, p)
  {
    hide Join, IsNode, Has;
    HasByPrimes(Join(a, b), e);
    JoinHasPrime(a, b, 2);
    JoinHasPrime(a, b, 3);
    JoinHasPrime(a, b, 5);
    assert IsPrime(2) && IsPrime(3) && IsPrime(5);
  }

  /** A lane-count mismatch and an invalid mask together are a topology violation. */
  lemma JoinGainsComposite()
    ensures var j := Join(LANE_COUNT_MISMATCH, INVALID_MASK);
            && Has(j, TOPOLOGY_VIOLATION)
            && !Has(LANE_COUNT_MISMATCH, TOPOLOGY_VIOLATION) && !Has(INVALID_MASK, TOPOLOGY_VIOLATION)
  {
    assert Gcd(3, 10) == Gcd(10, 3) == Gcd(3, 1) == Gcd(1, 0) == 1;
  }

  /** Escalating adds exactly the primes of the new node: the state is the least one that has the errors of
      both, and something can be extracted only when both were free of errors. */
  lemma EscalateAdds<T>(v: Validated<T>, more: nat, m: nat)
    requires IsNode(v.state) && IsNode(more)
    ensures Divides(v.state, v.Escalate(more).state) && Divides(more, v.Escalate(more).state)
    ensures Divides(v.state, m) && Divides(more, m) ==> Divides(v.Escalate(more).state, m)
    ensures forall p :: IsPrime(p) ==> (Has(v.Escalate(more).state, p) <==> Has(v.state, p) || Has(more, p))
    ensures v.Escalate(more).ExtractOrPanic() == if v.IsPure() && more == NO_ERROR then Ok(v.manifold) else Panic
  {
    hide Divides, Join, IsNode;
    forall p | IsPrime(p)
      ensures Has(v.Escalate(more).state, p) <==> Has(v.state, p) || Has(more, p)
    {
      JoinHasPrime(v.state, more, p);
    }
    Closed(v.state, more);
    JoinUpper(v.state, more);
    JoinIsLeast(v.state, more, m);
    if v.Escalate(more).IsPure() {
      Below(v.state, 1);
      Below(more, 1);
    }
    if v.IsPure() && more == NO_ERROR {
      Reflexive(1);
      JoinIsLeast(1, 1, 1);
      Below(Join(1, 1), 1);
    }
  }
}
