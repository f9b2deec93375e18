/** 64-bit words as numbers below 2^64: exclusive or, shifts and rotations, and products with odd
    constants, with the inverses the OC-64 generators rely on. */
module Words {
  import Modular

  const TWO_16: nat := 0x1_0000
  const TWO_32: nat := 0x1_0000_0000
  const TWO_64: nat := 0x1_0000_0000_0000_0000

  predicate IsWord(x: nat) { x < TWO_64 }

  // ---------------------------------------------------------------- exclusive or and shifts

  /** Bitwise exclusive or. */
  function Xor(a: nat, b: nat): nat
    decreases a + b
  {
    if a == 0 then b
    else if b == 0 then a
    else 2 * Xor(a / 2, b / 2) + (if a % 2 == b % 2 then 0 else 1)
  }

  /** Shift right by `k` bits. */
  function Shr(a: nat, k: nat): nat {
    if k == 0 then a else Shr(a / 2, k - 1)
  }

  function Pow2(n: nat): (p: nat)
    ensures p > 0
  {
    if n == 0 then 1 else 2 * Pow2(n - 1)
  }

  lemma XorHalves(a: nat, b: nat)
    ensures Xor(a, b) / 2 == Xor(a / 2, b / 2)
    ensures Xor(a, b) % 2 == if a % 2 == b % 2 then 0 else 1
  {
    assert Xor(0, b / 2) == b / 2;
  }

  lemma ByHalves(x: nat, y: nat)
    requires x / 2 == y / 2 && x % 2 == y % 2
    ensures x == y
  {
  }

  lemma ModHalves(a: nat, p: nat)
    requires p > 0
    ensures a % (2 * p) / 2 == a / 2 % p && a % (2 * p) % 2 == a % 2
  {
    var h, b := a / 2, a % 2;
    var q, r := h / p, h % p;
    assert h == q * p + r;
    assert a == q * (2 * p) + (2 * r + b);
    Modular.Remainder(a, q, 2 * r + b, 2 * p);
  }

  /** Exclusive or works on the low bits by themselves. */
  lemma {:induction false} XorLow(a: nat, b: nat, k: nat)
    ensures Xor(a, b) % Pow2(k) == Xor(a % Pow2(k), b % Pow2(k))
    decreases k
  {
    if k == 0 {
    } else {
      var p := Pow2(k - 1);
      XorLow(a / 2, b / 2, k - 1);
      XorHalves(a, b);
      XorHalves(a % (2 * p), b % (2 * p));
      ModHalves(a, p);
      ModHalves(b, p);
      ModHalves(Xor(a, b), p);
      ByHalves(Xor(a, b) % (2 * p), Xor(a % (2 * p), b % (2 * p)));
    }
  }

  lemma {:induction false} XorSelf(a: nat)
    ensures Xor(a, a) == 0
  {
    if a == 0 {
    } else {
      XorSelf(a / 2);
    }
  }

  lemma {:induction false} XorComm(a: nat, b: nat)
    ensures Xor(a, b) == Xor(b, a)
    decreases a + b
  {
    if a == 0 || b == 0 {
    } else {
      XorComm(a / 2, b / 2);
    }
  }

  lemma {:induction false} XorAssoc(a: nat, b: nat, c: nat)
    ensures Xor(Xor(a, b), c) == Xor(a, Xor(b, c))
    decreases a + b + c
  {
    if a == 0 || b == 0 || c == 0 {
    } else {
      XorAssoc(a / 2, b / 2, c / 2);
      XorHalves(a, b);
      XorHalves(b, c);
      XorHalves(Xor(a, b), c);
      XorHalves(a, Xor(b, c));
      ByHalves(Xor(Xor(a, b), c), Xor(a, Xor(b, c)));
    }
  }

  /** Xoring the same word twice changes nothing. */
  lemma XorCancels(a: nat, b: nat)
    ensures Xor(Xor(a, b), b) == a
  {
    XorAssoc(a, b, b);
    XorSelf(b);
  }

  lemma {:induction false} XorBound(a: nat, b: nat, n: nat)
    requires a < Pow2(n) && b < Pow2(n)
    ensures Xor(a, b) < Pow2(n)
    decreases n
  {
    if a == 0 || b == 0 {
    } else {
      XorBound(a / 2, b / 2, n - 1);
    }
  }

  lemma {:induction false} XorShr(a: nat, b: nat, k: nat)
    ensures Shr(Xor(a, b), k) == Xor(Shr(a, k), Shr(b, k))
    decreases k
  {
    if k == 0 {
    } else {
      XorHalves(a, b);
      XorShr(a / 2, b / 2, k - 1);
    }
  }

  lemma {:induction false} ShrShr(a: nat, j: nat, k: nat)
    ensures Shr(Shr(a, j), k) == Shr(a, j + k)
    decreases j
  {
    if j == 0 {
    } else {
      ShrShr(a / 2, j - 1, k);
    }
  }

  lemma {:induction false} ShrVanishes(a: nat, n: nat, k: nat)
    requires a < Pow2(n) && n <= k
    ensures Shr(a, k) == 0
    decreases k
  {
    if k == 0 {
    } else {
      if n > 0 { ShrVanishes(a / 2, n - 1, k - 1); } else { ShrVanishes(a / 2, 0, k - 1); }
    }
  }

  lemma {:induction false} ShrSmaller(a: nat, k: nat)
    ensures Shr(a, k) <= a
    decreases k
  {
    if k == 0 {
    } else {
      ShrSmaller(a / 2, k - 1);
    }
  }

  lemma Pow16()
    ensures Pow2(16) == 0x1_0000
  {
    assert Pow2(4) == 16;
    assert Pow2(8) == 256;
    assert Pow2(12) == 4096;
  }

  lemma WordBound()
    ensures Pow2(64) == TWO_64
  {
    assert Pow2(8) == 256;
    assert Pow2(16) == 0x1_0000;
    assert Pow2(24) == 0x100_0000;
    assert Pow2(32) == 0x1_0000_0000;
    assert Pow2(40) == 0x100_0000_0000;
    assert Pow2(48) == 0x1_0000_0000_0000;
    assert Pow2(56) == 0x100_0000_0000_0000;
  }

  // ---------------------------------------------------------------- folding a word onto itself

  function Fold(x: nat, k: nat): nat { Xor(x, Shr(x, k)) }

  /** The inverse of a fold by less than half a word, but more than a third. */
  function Unfold(x: nat, k: nat): nat { Xor(Xor(x, Shr(x, k)), Shr(x, 2 * k)) }

  lemma FoldIsWord(x: nat, k: nat)
    requires IsWord(x)
    ensures IsWord(Fold(x, k)) && IsWord(Unfold(x, k))
  {
    WordBound();
    hide Pow2, Xor, Shr;
    ShrSmaller(x, k);
    ShrSmaller(x, 2 * k);
    XorBound(x, Shr(x, k), 64);
    XorBound(Fold(x, k), Shr(x, 2 * k), 64);
  }

  /** A fold by at least half a word undoes itself. */
  lemma FoldTwice(x: nat, k: nat)
    requires IsWord(x) && k >= 32
    ensures Fold(Fold(x, k), k) == x
  {
    WordBound();
    hide Pow2, Xor, Shr;
    var b := Shr(x, k);
    XorShr(x, b, k);
    ShrShr(x, k, k);
    ShrVanishes(x, 64, 2 * k);
    XorZero(b);
    XorCancels(x, b);
  }

  lemma XorZero(a: nat)
    ensures Xor(a, 0) == a && Xor(0, a) == a
  {
  }

  /** Four terms that cancel in pairs. */
  lemma XorPairs(x: nat, a: nat, b: nat)
    ensures Xor(Xor(Xor(x, a), Xor(a, b)), b) == x
  {
    hide Xor;
    XorAssoc(Xor(x, a), Xor(a, b), b);
    XorCancels(a, b);
    XorCancels(x, a);
  }

  /** Folding and unfolding by more than a third of a word undo each other. */
  lemma FoldUnfold(x: nat, k: nat)
    requires IsWord(x) && k >= 22
    ensures Unfold(Fold(x, k), k) == x && Fold(Unfold(x, k), k) == x
  {
    WordBound();
    hide Pow2, Xor, Shr;
    var a, b := Shr(x, k), Shr(x, 2 * k);
    ShrShr(x, k, k);
    ShrShr(x, k, 2 * k);
    ShrVanishes(x, 64, 3 * k);
    XorShr(x, a, k);
    XorShr(x, a, 2 * k);
    XorZero(b);
    XorPairs(x, a, b);
    // The other way round: shifting the unfolded word drops its last term.
    ShrShr(x, 2 * k, k);
    XorShr(Xor(x, a), b, k);
    XorZero(Xor(a, b));
    XorAssoc(Xor(x, a), b, Xor(a, b));
    XorComm(b, Xor(a, b));
    XorCancels(a, b);
    XorCancels(x, a);
  }

  // ---------------------------------------------------------------- rotations

  function RotateLeft29(x: nat): nat
    requires IsWord(x)
  {
    x % 0x8_0000_0000 * 0x2000_0000 + x / 0x8_0000_0000
  }

  function RotateRight29(x: nat): nat
    requires IsWord(x)
  {
    x % 0x2000_0000 * 0x8_0000_0000 + x / 0x2000_0000
  }

  function RotateRight19(x: nat): nat
    requires IsWord(x)
  {
    x % 0x8_0000 * 0x2000_0000_0000 + x / 0x8_0000
  }

  lemma LeftThenRight(x: nat)
    requires IsWord(x)
    ensures IsWord(RotateLeft29(x)) && RotateRight29(RotateLeft29(x)) == x
  {
    var low, high := x % 0x8_0000_0000, x / 0x8_0000_0000;
    var y := RotateLeft29(x);
    assert y == low * 0x2000_0000 + high && high < 0x2000_0000;
    assert y / 0x2000_0000 == low && y % 0x2000_0000 == high;
  }

  lemma RightThenLeft(x: nat)
    requires IsWord(x)
    ensures IsWord(RotateRight29(x)) && RotateLeft29(RotateRight29(x)) == x
  {
    var low, high := x % 0x2000_0000, x / 0x2000_0000;
    var y := RotateRight29(x);
    assert y == low * 0x8_0000_0000 + high && high < 0x8_0000_0000;
    assert y / 0x8_0000_0000 == low && y % 0x8_0000_0000 == high;
  }

  lemma RotateRight19IsWord(x: nat)
    requires IsWord(x)
    ensures IsWord(RotateRight19(x))
  {
  }

  // ---------------------------------------------------------------- products with odd constants

  function Times(x: nat, k: nat): nat { x * k % TWO_64 }

  /** Multiplying by `k` modulo 2^64 is undone by any `inv` with `k * inv == 1 + c * 2^64`. */
  lemma TimesInverts(x: nat, k: nat, inv: nat, c: nat)
    requires IsWord(x) && k * inv == 1 + c * TWO_64
    ensures Times(Times(x, k), inv) == x
  {
    var r := Times(x, k);
    var q := x * k / TWO_64;
    var r2, q2 := r * inv % TWO_64, r * inv / TWO_64;
    var t := c * x - q * inv - q2;
    assert r == x * k - q * TWO_64;
    calc {
      r2;
      r * inv - q2 * TWO_64;
      (x * k - q * TWO_64) * inv - q2 * TWO_64;
      x * k * inv - q * TWO_64 * inv - q2 * TWO_64;
      { assert x * k * inv == x * (k * inv) == x * (1 + c * TWO_64); }
      x + (c * x) * TWO_64 - (q * inv) * TWO_64 - q2 * TWO_64;
      x + t * TWO_64;
    }
  }
}
