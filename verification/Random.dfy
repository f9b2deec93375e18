/** The OC-64 generators (include/slabflux/compute/reproducible_random.hpp:73-191).

    Both classes of the source are one generator in two forms: the phase counts modulo 2^64 in the
    default form and modulo 2^128 in the long one. Words are numbers below 2^64. */
module Random {
  import opened Modular
  import opened Words

  const K1 := 9817234650192837411
  const K2 := 3817465928173456789
  const MIX_A := 0xff51afd7ed558ccd
  const MIX_B := 0xc4ceb9fe1a85ec53
  const TWO_128 := 0x1_0000_0000_0000_0000_0000_0000_0000_0000

  // The inverses of the four constants modulo 2^64, and of K1 modulo 2^128.
  const K1_INVERSE := 16210850602017393803
  const K2_INVERSE := 11118318124223059389
  const MIX_A_INVERSE := 5725274745694666757
  const MIX_B_INVERSE := 11291846944257947611
  const K1_LONG_INVERSE := 244812930890614324048617082190012648587

  datatype Form = Default | Long

  function Modulus(f: Form): nat { if f.Default? then TWO_64 else TWO_128 }

  /** Phase accumulator and turbulence register. */
  datatype Rng = Rng(phi: nat, theta: nat)

  predicate Valid(f: Form, r: Rng) { r.phi < Modulus(f) && IsWord(r.theta) }

  function Low(phi: nat): (w: nat)
    ensures IsWord(w)
  {
    phi % TWO_64
  }

  // ---------------------------------------------------------------- the generator

  function NextPhase(f: Form, phi: nat): nat { (phi + K1) % Modulus(f) }

  /** The register entangled with the phase: xor, rotate, multiply. */
  function Stir(low: nat, theta: nat): nat
    requires IsWord(low) && IsWord(theta)
  {
    StirIsWord(low, theta);
    Times(RotateLeft29(Xor(theta, low)), K2)
  }

  /** The output permutation: add the rotated phase, fold, multiply, fold. */
  function Emit(low: nat, theta: nat): nat
    requires IsWord(low) && IsWord(theta)
  {
    Fold(Times(Fold((theta + RotateRight19(low)) % TWO_64, 35), K1), 27)
  }

  function Step(f: Form, r: Rng): (r': Rng)
    requires Valid(f, r)
    ensures Valid(f, r')
  {
    var phi := NextPhase(f, r.phi);
    Rng(phi, Stir(Low(phi), r.theta))
  }

  /** What a draw returns, as a function of the state behind it. */
  function Output(f: Form, r: Rng): nat
    requires Valid(f, r)
  {
    Emit(Low(r.phi), r.theta)
  }

  /** The state after `n` draws. */
  function After(f: Form, r: Rng, n: nat): (r': Rng)
    requires Valid(f, r)
    ensures Valid(f, r')
  {
    if n == 0 then r else Step(f, After(f, r, n - 1))
  }

  function Mix(s: nat): nat { Fold(Times(Fold(Times(Fold(s, 33), MIX_A), 33), MIX_B), 33) }

  /** The state a constructor leaves: seeded from the mixed LSN and cycled three times. */
  function Seeded(f: Form, lsn: nat): (r: Rng)
    requires IsWord(lsn)
    ensures Valid(f, r)
  {
    MixIsWord(lsn);
    SeedIsWord(Mix(lsn));
    After(f, Rng((Mix(lsn) * K1 + 1) % Modulus(f), Xor(Mix(lsn), K2)), 3)
  }

  lemma XorIsWord(a: nat, b: nat)
    requires IsWord(a) && IsWord(b)
    ensures IsWord(Xor(a, b))
  {
    WordBound();
    hide Pow2, Xor;
    XorBound(a, b, 64);
  }

  lemma StirIsWord(low: nat, theta: nat)
    requires IsWord(low) && IsWord(theta)
    ensures IsWord(Xor(theta, low)) && IsWord(RotateLeft29(Xor(theta, low)))
  {
    hide RotateLeft29, Xor;
    XorIsWord(theta, low);
    LeftThenRight(Xor(theta, low));
  }

  lemma MixIsWord(s: nat)
    requires IsWord(s)
    ensures IsWord(Mix(s))
  {
    hide Fold;
    FoldIsWord(Times(Fold(Times(Fold(s, 33), MIX_A), 33), MIX_B), 33);
  }

  lemma SeedIsWord(m: nat)
    requires IsWord(m)
    ensures IsWord(Xor(m, K2))
  {
    hide Xor;
    XorIsWord(m, K2);
  }

  // ---------------------------------------------------------------- bijections

  function Unstir(low: nat, t: nat): nat
    requires IsWord(low) && IsWord(t)
  {
    Xor(RotateRight29(Times(t, K2_INVERSE)), low)
  }

  function Unemit(low: nat, out: nat): nat
    requires IsWord(low) && IsWord(out)
  {
    (Fold(Times(Unfold(out, 27), K1_INVERSE), 35) + TWO_64 - RotateRight19(low)) % TWO_64
  }

  function Unmix(t: nat): nat {
    Fold(Times(Fold(Times(Fold(t, 33), MIX_B_INVERSE), 33), MIX_A_INVERSE), 33)
  }

  lemma MulK1(x: nat)
    requires IsWord(x)
    ensures Times(Times(x, K1), K1_INVERSE) == x && Times(Times(x, K1_INVERSE), K1) == x
  {
    hide Times;
    TimesInverts(x, K1, K1_INVERSE, 8627306998097314427);
    TimesInverts(x, K1_INVERSE, K1, 8627306998097314427);
  }

  lemma MulK2(x: nat)
    requires IsWord(x)
    ensures Times(Times(x, K2), K2_INVERSE) == x && Times(Times(x, K2_INVERSE), K2) == x
  {
    hide Times;
    TimesInverts(x, K2, K2_INVERSE, K2 * K2_INVERSE / TWO_64);
    TimesInverts(x, K2_INVERSE, K2, K2 * K2_INVERSE / TWO_64);
  }

  lemma MulMix(x: nat)
    requires IsWord(x)
    ensures Times(Times(x, MIX_A), MIX_A_INVERSE) == x && Times(Times(x, MIX_A_INVERSE), MIX_A) == x
    ensures Times(Times(x, MIX_B), MIX_B_INVERSE) == x && Times(Times(x, MIX_B_INVERSE), MIX_B) == x
  {
    hide Times;
    TimesInverts(x, MIX_A, MIX_A_INVERSE, MIX_A * MIX_A_INVERSE / TWO_64);
    TimesInverts(x, MIX_A_INVERSE, MIX_A, MIX_A * MIX_A_INVERSE / TWO_64);
    TimesInverts(x, MIX_B, MIX_B_INVERSE, MIX_B * MIX_B_INVERSE / TWO_64);
    TimesInverts(x, MIX_B_INVERSE, MIX_B, MIX_B * MIX_B_INVERSE / TWO_64);
  }

  /** For every phase the register is stirred by a bijection. */
  lemma StirBijective(low: nat, x: nat)
    requires IsWord(low) && IsWord(x)
    ensures IsWord(Stir(low, x)) && Unstir(low, Stir(low, x)) == x
    ensures IsWord(Unstir(low, x)) && Stir(low, Unstir(low, x)) == x
  {
    hide Xor, RotateLeft29, RotateRight29;
    StirIsWord(low, x);
    LeftThenRight(Xor(x, low));
    MulK2(RotateLeft29(Xor(x, low)));
    XorCancels(x, low);
    MulK2(x);
    RightThenLeft(Times(x, K2_INVERSE));
    XorIsWord(RotateRight29(Times(x, K2_INVERSE)), low);
    XorCancels(RotateRight29(Times(x, K2_INVERSE)), low);
  }

  lemma EmitUndone(low: nat, x: nat)
    requires IsWord(low) && IsWord(x)
    ensures IsWord(Emit(low, x)) && Unemit(low, Emit(low, x)) == x
  {
    hide Fold, Unfold, Times, RotateRight19;
    RotateRight19IsWord(low);
    var r := RotateRight19(low);
    var z1 := (x + r) % TWO_64;
    AroundTheCircle(x, r, TWO_64);
    FoldIsWord(z1, 35);
    FoldTwice(z1, 35);
    MulK1(Fold(z1, 35));
    TimesIsWord(Fold(z1, 35), K1);
    FoldIsWord(Times(Fold(z1, 35), K1), 27);
    FoldUnfold(Times(Fold(z1, 35), K1), 27);
  }

  lemma EmitReached(low: nat, out: nat)
    requires IsWord(low) && IsWord(out)
    ensures IsWord(Unemit(low, out)) && Emit(low, Unemit(low, out)) == out
  {
    hide Fold, Unfold, Times, RotateRight19;
    RotateRight19IsWord(low);
    var z3 := Unfold(out, 27);
    FoldIsWord(out, 27);
    FoldUnfold(out, 27);
    MulK1(z3);
    var z2 := Times(z3, K1_INVERSE);
    TimesIsWord(z3, K1_INVERSE);
    FoldIsWord(z2, 35);
    FoldTwice(z2, 35);
    AroundTheCircle(Fold(z2, 35), RotateRight19(low), TWO_64);
  }

  /** For every phase the map from the register to the output is a bijection. */
  lemma EmitBijective(low: nat, x: nat)
    requires IsWord(low) && IsWord(x)
    ensures IsWord(Emit(low, x)) && Unemit(low, Emit(low, x)) == x
    ensures IsWord(Unemit(low, x)) && Emit(low, Unemit(low, x)) == x
  {
    hide Emit, Unemit;
    EmitUndone(low, x);
    EmitReached(low, x);
  }

  lemma TimesIsWord(x: nat, k: nat)
    ensures IsWord(Times(x, k))
  {
  }

  /** Seed mixing is a bijection of the words. */
  lemma MixBijective(x: nat)
    requires IsWord(x)
    ensures IsWord(Mix(x)) && Unmix(Mix(x)) == x
    ensures IsWord(Unmix(x)) && Mix(Unmix(x)) == x
  {
    hide Fold, Times;
    var a := Fold(x, 33);
    FoldIsWord(x, 33);
    FoldTwice(x, 33);
    MixHalf(a, MIX_A);
    MixHalf(Fold(Times(a, MIX_A), 33), MIX_B);
    MulMix(a);
    MulMix(Fold(Times(a, MIX_A), 33));
    MixHalf(a, MIX_B_INVERSE);
    MixHalf(Fold(Times(a, MIX_B_INVERSE), 33), MIX_A_INVERSE);
    MulMix(Fold(Times(a, MIX_B_INVERSE), 33));
  }

  lemma MixHalf(a: nat, k: nat)
    requires IsWord(a)
    ensures var b := Times(a, k); IsWord(b) && IsWord(Fold(b, 33)) && Fold(Fold(b, 33), 33) == b
  {
    hide Fold, Times;
    TimesIsWord(a, k);
    FoldIsWord(Times(a, k), 33);
    FoldTwice(Times(a, k), 33);
  }

  // ---------------------------------------------------------------- the whole state

  function Back(f: Form, r: Rng): Rng
    requires Valid(f, r)
  {
    Rng((r.phi + Modulus(f) - K1) % Modulus(f), Unstir(Low(r.phi), r.theta))
  }

  /** One draw is a bijection of the states: `Back` undoes it from both sides. */
  lemma StepBijective(f: Form, r: Rng)
    requires Valid(f, r)
    ensures Valid(f, Step(f, r)) && Back(f, Step(f, r)) == r
    ensures Valid(f, Back(f, r)) && Step(f, Back(f, r)) == r
  {
    hide Stir, Unstir, Low;
    AroundTheCircle(r.phi, K1, Modulus(f));
    StirBijective(Low(NextPhase(f, r.phi)), r.theta);
    StirBijective(Low(r.phi), r.theta);
  }

  lemma {:induction false} PhaseAfter(f: Form, r: Rng, n: nat)
    requires Valid(f, r)
    ensures After(f, r, n).phi == (r.phi + n * K1) % Modulus(f)
  {
    hide Stir;
    if n == 0 {
    } else {
      PhaseAfter(f, r, n - 1);
      AddModulo(r.phi + (n - 1) * K1, K1, Modulus(f));
    }
  }

  /** The odd step visits every phase: a multiple of K1 vanishes only at a multiple of the modulus. */
  lemma StepIsInvertible(f: Form, n: nat, q: nat)
    requires n * K1 == q * Modulus(f)
    ensures n % Modulus(f) == 0
  {
    match f {
      case Default =>
        var k: int := q * K1_INVERSE - n * 8627306998097314427;
        assert n == k * TWO_64;
      case Long =>
        var k: int := q * K1_LONG_INVERSE - n * 7062916629215196551;
        assert n == k * TWO_128;
    }
  }

  /** The phase is back at its start after exactly the multiples of 2^64 draws, of 2^128 in the
      long form. */
  lemma PhaseReturns(f: Form, r: Rng, n: nat)
    requires Valid(f, r)
    ensures After(f, r, n).phi == r.phi <==> n % Modulus(f) == 0
  {
    hide After;
    PhaseAfter(f, r, n);
    var m := Modulus(f);
    if (r.phi + n * K1) % m == r.phi {
      assert n * K1 == (r.phi + n * K1) / m * m;
      StepIsInvertible(f, n, (r.phi + n * K1) / m);
    }
    if n % m == 0 {
      assert n * K1 == n / m * K1 * m;
      SameRemainder(r.phi, n / m * K1, m);
    }
  }

  lemma {:induction false} AfterAdds(f: Form, r: Rng, i: nat, j: nat)
    requires Valid(f, r)
    ensures After(f, After(f, r, i), j) == After(f, r, i + j)
  {
    hide Step;
    if j == 0 {
    } else {
      AfterAdds(f, r, i, j - 1);
    }
  }

  /** No full state comes back before a whole period. */
  lemma NoEarlyRepeat(f: Form, r: Rng, i: nat, j: nat)
    requires Valid(f, r)
    requires i < j < i + Modulus(f)
    ensures After(f, r, i) != After(f, r, j)
  {
    hide After;
    AfterAdds(f, r, i, j - i);
    PhaseReturns(f, After(f, r, i), j - i);
  }

  lemma {:induction false} AfterInjective(f: Form, r: Rng, s: Rng, n: nat)
    requires Valid(f, r) && Valid(f, s)
    requires r != s
    ensures After(f, r, n) != After(f, s, n)
  {
    hide Step, Back;
    if n == 0 {
    } else {
      AfterInjective(f, r, s, n - 1);
      StepBijective(f, After(f, r, n - 1));
      StepBijective(f, After(f, s, n - 1));
    }
  }

  /** A fresh generator is three draws away from its seed: undoing three draws gives the registers made of the
      mixed LSN, and the phase has advanced three times. */
  lemma SeedUndone(f: Form, lsn: nat)
    requires IsWord(lsn)
    ensures var r := Seeded(f, lsn);
            && Valid(f, Back(f, r)) && Valid(f, Back(f, Back(f, r)))
            && Back(f, Back(f, Back(f, r))) == Rng((Mix(lsn) * K1 + 1) % Modulus(f), Xor(Mix(lsn), K2))
            && r.phi == (Mix(lsn) * K1 + 1 + 3 * K1) % Modulus(f)
  {
    hide Mix, Xor, Step, Back;
    MixIsWord(lsn);
    SeedIsWord(Mix(lsn));
    var seed := Rng((Mix(lsn) * K1 + 1) % Modulus(f), Xor(Mix(lsn), K2));
    StepBijective(f, seed);
    StepBijective(f, After(f, seed, 1));
    StepBijective(f, After(f, seed, 2));
    assert After(f, seed, 1) == Step(f, seed) && After(f, seed, 2) == Step(f, After(f, seed, 1));
    assert After(f, seed, 3) == Step(f, After(f, seed, 2));
    PhaseAfter(f, seed, 3);
    AddModulo(Mix(lsn) * K1 + 1, 3 * K1, Modulus(f));
  }

  /** Generators built from different seeds are never in the same state at the same draw. */
  lemma SeedsNeverMeet(f: Form, s: nat, t: nat, n: nat)
    requires IsWord(s) && IsWord(t) && s != t
    ensures After(f, Seeded(f, s), n) != After(f, Seeded(f, t), n)
  {
    hide Mix, Unmix, Xor, After;
    MixBijective(s);
    MixBijective(t);
    XorCancels(Mix(s), K2);
    XorCancels(Mix(t), K2);
    SeedIsWord(Mix(s));
    SeedIsWord(Mix(t));
    var a := Rng((Mix(s) * K1 + 1) % Modulus(f), Xor(Mix(s), K2));
    var b := Rng((Mix(t) * K1 + 1) % Modulus(f), Xor(Mix(t), K2));
    assert a.theta != b.theta;
    AfterAdds(f, a, 3, n);
    AfterAdds(f, b, 3, n);
    AfterInjective(f, a, b, 3 + n);
  }

  /** The one register that gives `out` at phase `phi`. */
  function StateFor(phi: nat, out: nat): Rng
    requires IsWord(out)
  {
    Rng(phi, Unemit(Low(phi), out))
  }

  ghost function StatesGiving(out: nat, phases: nat): set<Rng>
    requires IsWord(out)
  {
    set phi | 0 <= phi < phases :: StateFor(phi, out)
  }

  lemma {:induction false} StatesCounted(out: nat, phases: nat)
    requires IsWord(out)
    ensures |StatesGiving(out, phases)| == phases
  {
    hide Unemit;
    if phases == 0 {
      assert StatesGiving(out, 0) == {};
    } else {
      StatesCounted(out, phases - 1);
      assert StatesGiving(out, phases) == StatesGiving(out, phases - 1) + {StateFor(phases - 1, out)};
    }
  }

  /** Every 64-bit output comes from exactly as many states as there are phases. */
  lemma OutputsEquallyOften(f: Form, out: nat)
    requires IsWord(out)
    ensures forall r :: r in StatesGiving(out, Modulus(f)) <==> Valid(f, r) && Output(f, r) == out
    ensures |StatesGiving(out, Modulus(f))| == Modulus(f)
  {
    hide Emit, Unemit;
    StatesCounted(out, Modulus(f));
    forall r
      ensures r in StatesGiving(out, Modulus(f)) <==> Valid(f, r) && Output(f, r) == out
    {
      EmitBijective(Low(r.phi), out);
      if IsWord(r.theta) {
        EmitBijective(Low(r.phi), r.theta);
      }
      assert r.phi < Modulus(f) ==> StateFor(r.phi, out) in StatesGiving(out, Modulus(f));
    }
  }

  // ---------------------------------------------------------------- the generator object

  class Generator {
    const form: Form
    var phi: nat
    var theta: nat

    function State(): Rng
      reads this
    {
      Rng(phi, theta)
    }

    constructor (f: Form, lsn: nat)
      requires IsWord(lsn)
      ensures form == f && State() == Seeded(f, lsn)
    {
      hide Step, Mix, Xor;
      form := f;
      var mixed := MixSeed(lsn);
      SeedIsWord(mixed);
      ghost var seed := Rng((mixed * K1 + 1) % Modulus(f), Xor(mixed, K2));
      phi := (mixed * K1 + 1) % Modulus(f);
      theta := Xor(mixed, K2);
      new;
      var i := 0;
      assert State() == After(f, seed, 0);
      while i < 3
        invariant 0 <= i <= 3 && form == f
        invariant Valid(f, seed) && State() == After(f, seed, i)
      {
        var unused := Generate64();
        i := i + 1;
      }
    }

    static method MixSeed(lsn: nat) returns (s: nat)
      requires IsWord(lsn)
      ensures IsWord(s) && s == Mix(lsn)
    {
      hide Fold, Times;
      s := lsn;
      s := Fold(s, 33);
      s := Times(s, MIX_A);
      s := Fold(s, 33);
      s := Times(s, MIX_B);
      s := Fold(s, 33);
      MixIsWord(lsn);
    }

    method Generate64() returns (out: nat)
      requires Valid(form, State())
      modifies this
      ensures State() == Step(form, old(State()))
      ensures out == Output(form, State()) && IsWord(out)
    {
      hide Xor, Fold, RotateLeft29, RotateRight19;
      EmitBijective(Low(NextPhase(form, phi)), Stir(Low(NextPhase(form, phi)), theta));
      phi := (phi + K1) % Modulus(form);
      var current := phi % TWO_64;
      var delta := Xor(theta, current);
      StirIsWord(current, theta);
      theta := Times(RotateLeft29(delta), K2);
      RotateRight19IsWord(current);
      var z1 := (theta + RotateRight19(current)) % TWO_64;
      var z2 := Fold(z1, 35);
      var z3 := Times(z2, K1);
      out := Fold(z3, 27);
    }

    /** The high half of a draw. */
    method Next() returns (w: nat)
      requires Valid(form, State())
      modifies this
      ensures State() == Step(form, old(State()))
      ensures w < 0x1_0000_0000 && w == Output(form, State()) / 0x1_0000_0000
    {
      var z := Generate64();
      w := z / 0x1_0000_0000;
    }

    method Next64() returns (out: nat)
      requires Valid(form, State())
      modifies this
      ensures State() == Step(form, old(State()))
      ensures out == Output(form, State()) && IsWord(out)
    {
      out := Generate64();
    }
  }
}
