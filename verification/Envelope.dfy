/** The sealed 64-byte envelope (include/slabflux/compute/sovereign_signal.hpp:25-113).

    Sixteen 16-bit payload cells and sixteen conjugate cells. Cells are signed 16-bit numbers, lane
    products are signed 32-bit numbers, and both wrap around. */
module Envelope {
  import Words

  const CELLS := 16

  predicate IsCell(x: int) { -0x8000 <= x < 0x8000 }

  function Wrap16(x: int): (c: int)
    ensures IsCell(c)
  {
    (x + 0x8000) % 0x1_0000 - 0x8000
  }

  function Wrap32(x: int): int { (x + 0x8000_0000) % 0x1_0000_0000 - 0x8000_0000 }

  /** The low sixteen bits vanish. */
  predicate Zero16(x: int) { x % 0x1_0000 == 0 }

  datatype Envelope = Envelope(payload: seq<int>, conjugate: seq<int>)

  predicate Valid(e: Envelope) {
    && |e.payload| == CELLS && |e.conjugate| == CELLS
    && (forall i :: 0 <= i < CELLS ==> IsCell(e.payload[i]) && IsCell(e.conjugate[i]))
  }

  function Partner(j: nat): (p: nat)
    ensures j < CELLS ==> p < CELLS && p != j && p / 2 == j / 2
  {
    if j % 2 == 0 then j + 1 else j - 1
  }

  // ---------------------------------------------------------------- sealing

  /** The part of the key that comes from the LSN. */
  function KeyBase(lsn: nat): (h: nat)
    ensures h < 0x1_0000
  {
    Words.Xor(lsn, lsn / 0x1_0000_0000) % 0x1_0000
  }

  /** The key of lane `j`: base plus 1, 1, 3, 3, 5, 5, ..., with the lowest bit set. */
  function Key(lsn: nat, j: nat): (k: nat)
    ensures k % 2 == 1
  {
    var sum := (KeyBase(lsn) + 2 * (j / 2) + 1) % 0x1_0000;
    if sum % 2 == 1 then sum else sum + 1
  }

  /** Swap with the neighbour, negate on even lanes, scale by the key. */
  function Conjugate(payload: seq<int>, lsn: nat, j: nat): (c: int)
    requires |payload| == CELLS && j < CELLS
    ensures IsCell(c)
  {
    Wrap16(Wrap16(payload[Partner(j)] * if j % 2 == 0 then -1 else 1) * Key(lsn, j))
  }

  function Sealed(payload: seq<int>, lsn: nat): Envelope
    requires |payload| == CELLS
  {
    Envelope(payload, seq(CELLS, j requires 0 <= j < CELLS => Conjugate(payload, lsn, j)))
  }

  // ---------------------------------------------------------------- validation

  /** Lane `i` of the 512-bit product of [D, D'] with [D', D]. */
  function Lane(e: Envelope, i: nat): int
    requires Valid(e) && i < CELLS
  {
    var m, n := e.payload + e.conjugate, e.conjugate + e.payload;
    Wrap32(m[2 * i] * n[2 * i] + m[2 * i + 1] * n[2 * i + 1])
  }

  predicate Resonant(e: Envelope)
    requires Valid(e)
  {
    forall i :: 0 <= i < CELLS ==> Zero16(Lane(e, i))
  }

  const VOID := Envelope(seq(CELLS, i => 0), seq(CELLS, i => 0))

  /** The sum over one pair of cells, before any wrap-around. */
  function Pair(e: Envelope, i: nat): int
    requires Valid(e) && i < CELLS / 2
  {
    e.payload[2 * i] * e.conjugate[2 * i] + e.payload[2 * i + 1] * e.conjugate[2 * i + 1]
  }

  lemma SameLow(x: int, y: int, q: int)
    requires y == x + 0x1_0000 * q
    ensures Zero16(x) <==> Zero16(y)
  {
  }

  lemma Wrap16Low(x: int) returns (q: int)
    ensures Wrap16(x) == x + 0x1_0000 * q
  {
    q := 0 - (x + 0x8000) / 0x1_0000;
  }

  lemma Wrap32Low(x: int)
    ensures Zero16(Wrap32(x)) <==> Zero16(x)
  {
    var q := (x + 0x8000_0000) / 0x1_0000_0000;
    SameLow(x, Wrap32(x), 0 - 0x1_0000 * q);
  }

  lemma LaneIsPair(e: Envelope, i: nat)
    requires Valid(e) && i < CELLS / 2
    ensures Lane(e, i) == Lane(e, i + 8) == Wrap32(Pair(e, i))
  {
    hide Wrap32;
    var m, n := e.payload + e.conjugate, e.conjugate + e.payload;
    assert m[2 * i] == e.payload[2 * i] == n[2 * (i + 8)];
    assert n[2 * i] == e.conjugate[2 * i] == m[2 * (i + 8)];
    assert m[2 * i + 1] == e.payload[2 * i + 1] == n[2 * (i + 8) + 1];
    assert n[2 * i + 1] == e.conjugate[2 * i + 1] == m[2 * (i + 8) + 1];
    Swapped(e.payload[2 * i], e.conjugate[2 * i], e.payload[2 * i + 1], e.conjugate[2 * i + 1]);
  }

  lemma Swapped(a: int, b: int, c: int, d: int)
    ensures a * b + c * d == b * a + d * c
  {
  }

  /** Both halves of the product test the same eight pairs. */
  lemma ResonantPairs(e: Envelope)
    requires Valid(e)
    ensures Resonant(e) <==> forall i :: 0 <= i < CELLS / 2 ==> Zero16(Pair(e, i))
  {
    hide Lane, Wrap32, Zero16, Pair;
    forall i | 0 <= i < CELLS / 2
      ensures Zero16(Lane(e, i)) <==> Zero16(Pair(e, i))
      ensures Zero16(Lane(e, i + 8)) <==> Zero16(Pair(e, i))
    {
      LaneIsPair(e, i);
      Wrap32Low(Pair(e, i));
    }
    if forall i :: 0 <= i < CELLS / 2 ==> Zero16(Pair(e, i)) {
      forall i | 0 <= i < CELLS
        ensures Zero16(Lane(e, i))
      {
        assert Zero16(Pair(e, i % 8));
        assert i >= 8 ==> i == i % 8 + 8;
      }
    }
  }

  // ---------------------------------------------------------------- what sealing guarantees

  lemma SealedValid(payload: seq<int>, lsn: nat)
    requires |payload| == CELLS && forall i :: 0 <= i < CELLS ==> IsCell(payload[i])
    ensures Valid(Sealed(payload, lsn))
  {
    hide Conjugate;
  }

  /** The conjugate cell is the partner times an odd factor, up to a multiple of 2^16. */
  lemma ConjugateForm(payload: seq<int>, lsn: nat, j: nat) returns (q: int)
    requires |payload| == CELLS && j < CELLS
    ensures Conjugate(payload, lsn, j) == payload[Partner(j)] * Factor(lsn, j) + 0x1_0000 * q
  {
    hide Wrap16, Key;
    var p, s := payload[Partner(j)], if j % 2 == 0 then -1 else 1;
    var a := Wrap16Low(p * s);
    var b := Wrap16Low(Wrap16(p * s) * Key(lsn, j));
    q := a * Key(lsn, j) + b;
    Scaled(p, s, a, Key(lsn, j));
  }

  lemma Scaled(p: int, s: int, a: int, k: int)
    ensures (p * s + 0x1_0000 * a) * k == p * (s * k) + 0x1_0000 * (a * k)
  {
  }

  function Factor(lsn: nat, j: nat): (f: int)
    ensures f % 2 == 1
  {
    if j % 2 == 0 then 0 - Key(lsn, j) else Key(lsn, j)
  }

  lemma PairCancels(payload: seq<int>, lsn: nat, i: nat)
    requires |payload| == CELLS && forall i :: 0 <= i < CELLS ==> IsCell(payload[i])
    requires i < CELLS / 2
    ensures Valid(Sealed(payload, lsn)) && Zero16(Pair(Sealed(payload, lsn), i))
  {
    hide Conjugate, Zero16, Key;
    SealedValid(payload, lsn);
    var c, d := Conjugate(payload, lsn, 2 * i), Conjugate(payload, lsn, 2 * i + 1);
    var q := ConjugateForm(payload, lsn, 2 * i);
    var r := ConjugateForm(payload, lsn, 2 * i + 1);
    SameKey(lsn, i);
    Cancels(payload[2 * i], payload[2 * i + 1], c, d, Key(lsn, 2 * i), q, r);
  }

  lemma SameKey(lsn: nat, i: nat)
    ensures Key(lsn, 2 * i) == Key(lsn, 2 * i + 1)
  {
    assert 2 * i / 2 == (2 * i + 1) / 2;
  }

  lemma Cancels(a: int, b: int, c: int, d: int, k: int, q: int, r: int)
    requires c == b * (0 - k) + 0x1_0000 * q && d == a * k + 0x1_0000 * r
    ensures Zero16(a * c + b * d)
  {
    assert b * (0 - k) == 0 - b * k;
    assert a * c == 0 - a * b * k + 0x1_0000 * (a * q) by { assert a * (0 - b * k) == 0 - a * b * k; }
    assert b * d == a * b * k + 0x1_0000 * (b * r);
    SameLow(0, a * c + b * d, a * q + b * r);
  }

  /** For every payload and LSN, validation right after sealing succeeds. */
  lemma SealedResonates(payload: seq<int>, lsn: nat)
    requires |payload| == CELLS && forall i :: 0 <= i < CELLS ==> IsCell(payload[i])
    ensures Valid(Sealed(payload, lsn)) && Resonant(Sealed(payload, lsn))
  {
    hide Pair, Zero16, Resonant, Sealed;
    SealedValid(payload, lsn);
    forall i | 0 <= i < CELLS / 2
      ensures Zero16(Pair(Sealed(payload, lsn), i))
    {
      PairCancels(payload, lsn, i);
    }
    ResonantPairs(Sealed(payload, lsn));
  }

  // ---------------------------------------------------------------- what validation catches

  /** One cell, of the payload or of the conjugate, changed by `d`. */
  function Struck(e: Envelope, inPayload: bool, j: nat, d: int): Envelope
    requires Valid(e) && j < CELLS
  {
    if inPayload then e.(payload := e.payload[j := Wrap16(e.payload[j] + d)])
    else e.(conjugate := e.conjugate[j := Wrap16(e.conjugate[j] + d)])
  }

  /** The payload cell that decides whether a change is noticed. */
  function Governing(payload: seq<int>, inPayload: bool, j: nat): int
    requires |payload| == CELLS && j < CELLS
  {
    if inPayload then payload[Partner(j)] else payload[j]
  }

  /** An odd factor can be cancelled modulo a power of two. */
  lemma {:induction false} OddCancels(k: int, x: int, t: int, n: nat) returns (m: int)
    requires k % 2 == 1 && k * x == t * Words.Pow2(n)
    ensures x == m * Words.Pow2(n)
    decreases n
  {
    if n == 0 {
      m := x;
    } else {
      var p := Words.Pow2(n - 1);
      Regroup(t, p);
      EvenFactor(k, x, t * p);
      m := OddCancels(k, x / 2, t, n - 1);
      Regroup(m, p);
    }
  }

  lemma Regroup(t: int, p: int)
    ensures t * (2 * p) == 2 * (t * p)
  {
  }

  lemma EvenFactor(k: int, x: int, y: int)
    requires k % 2 == 1 && k * x == 2 * y
    ensures x == 2 * (x / 2) && k * (x / 2) == y
  {
    var a, b := k / 2, x / 2;
    assert k == 2 * a + 1;
    assert k * x == 2 * (a * x) + x;
    assert x == 2 * b;
    Regroup(k, b);
  }

  lemma OddCancels16(k: int, x: int)
    requires k % 2 == 1
    ensures Zero16(k * x) <==> Zero16(x)
  {
    Words.Pow16();
    if Zero16(k * x) {
      var m := OddCancels(k, x, k * x / 0x1_0000, 16);
      SameLow(0, x, m);
    }
    if Zero16(x) {
      assert k * x == k * (x / 0x1_0000) * 0x1_0000;
      SameLow(0, k * x, k * (x / 0x1_0000));
    }
  }

  /** A struck pair differs from the sound one by the change times its opposite cell. */
  lemma StruckPair(e: Envelope, inPayload: bool, j: nat, d: int)
    requires Valid(e) && j < CELLS && Zero16(Pair(e, j / 2))
    ensures Valid(Struck(e, inPayload, j, d))
    ensures Zero16(Pair(Struck(e, inPayload, j, d), j / 2))
       <==> Zero16(d * if inPayload then e.conjugate[j] else e.payload[j])
  {
    hide Wrap16, Zero16;
    var i := j / 2;
    var own := if inPayload then e.payload[j] else e.conjugate[j];
    var other := if inPayload then e.conjugate[j] else e.payload[j];
    var q := Wrap16Low(own + d);
    Moved(own, d, q, other);
    assert Pair(Struck(e, inPayload, j, d), i) == Pair(e, i) + d * other + 0x1_0000 * (q * other);
    SumLow(Pair(e, i), d * other);
    SameLow(Pair(e, i) + d * other, Pair(Struck(e, inPayload, j, d), i), q * other);
  }

  lemma Moved(own: int, d: int, q: int, other: int)
    ensures (own + d + 0x1_0000 * q) * other == own * other + d * other + 0x1_0000 * (q * other)
    ensures other * (own + d + 0x1_0000 * q) == other * own + d * other + 0x1_0000 * (q * other)
  {
  }

  lemma SumLow(x: int, y: int)
    requires Zero16(x)
    ensures Zero16(x + y) <==> Zero16(y)
  {
  }

  lemma OtherPair(e: Envelope, inPayload: bool, j: nat, d: int, i: nat)
    requires Valid(e) && j < CELLS && i < CELLS / 2 && i != j / 2
    ensures Valid(Struck(e, inPayload, j, d))
    ensures Pair(Struck(e, inPayload, j, d), i) == Pair(e, i)
  {
  }

  /** Changing one cell of a sealed envelope by `d` is rejected exactly when `d` times its governing
      payload cell does not vanish modulo 2^16. */
  lemma SingleChange(payload: seq<int>, lsn: nat, inPayload: bool, j: nat, d: int)
    requires |payload| == CELLS && j < CELLS && forall i :: 0 <= i < CELLS ==> IsCell(payload[i])
    ensures Valid(Sealed(payload, lsn)) && Valid(Struck(Sealed(payload, lsn), inPayload, j, d))
    ensures !Resonant(Struck(Sealed(payload, lsn), inPayload, j, d))
       <==> !Zero16(d * Governing(payload, inPayload, j))
  {
    hide Pair, Zero16, Resonant, Struck, Conjugate, Key, Wrap16;
    SealedResonates(payload, lsn);
    var e := Sealed(payload, lsn);
    ResonantPairs(e);
    StruckPair(e, inPayload, j, d);
    forall i | 0 <= i < CELLS / 2 && i != j / 2
      ensures Zero16(Pair(Struck(e, inPayload, j, d), i))
    {
      OtherPair(e, inPayload, j, d, i);
    }
    ResonantPairs(Struck(e, inPayload, j, d));
    if inPayload {
      GovernedByPartner(payload, lsn, j, d);
    }
  }

  lemma GovernedByPartner(payload: seq<int>, lsn: nat, j: nat, d: int)
    requires |payload| == CELLS && j < CELLS
    ensures Zero16(d * Conjugate(payload, lsn, j)) <==> Zero16(d * payload[Partner(j)])
  {
    hide Zero16, Conjugate, Key;
    var q := ConjugateForm(payload, lsn, j);
    var p, f := payload[Partner(j)], Factor(lsn, j);
    Distributed(d, p, f, q);
    SameLow(f * (d * p), d * Conjugate(payload, lsn, j), d * q);
    OddCancels16(f, d * p);
  }

  lemma Distributed(d: int, p: int, f: int, q: int)
    ensures d * (p * f + 0x1_0000 * q) == f * (d * p) + 0x1_0000 * (d * q)
  {
  }

  /** Every change of a cell is caught exactly when its governing payload cell is odd. */
  lemma EveryChangeCaught(payload: seq<int>, lsn: nat, inPayload: bool, j: nat)
    requires |payload| == CELLS && j < CELLS && forall i :: 0 <= i < CELLS ==> IsCell(payload[i])
    ensures Valid(Sealed(payload, lsn))
    ensures Governing(payload, inPayload, j) % 2 == 1
       <==> forall d :: !Zero16(d) ==> Rejected(Sealed(payload, lsn), inPayload, j, d)
  {
    hide Resonant, Sealed, Struck;
    SealedValid(payload, lsn);
    var e, g := Sealed(payload, lsn), Governing(payload, inPayload, j);
    forall d
      ensures Rejected(e, inPayload, j, d) <==> !Zero16(d * g)
    {
      SingleChange(payload, lsn, inPayload, j, d);
    }
    if g % 2 == 1 {
      forall d | !Zero16(d)
        ensures Rejected(e, inPayload, j, d)
      {
        OddCancels16(g, d);
        assert g * d == d * g;
      }
    } else {
      assert 0x8000 * g == 0x1_0000 * (g / 2);
      assert !Rejected(e, inPayload, j, 0x8000);
    }
  }

  predicate Rejected(e: Envelope, inPayload: bool, j: nat, d: int)
    requires Valid(e) && j < CELLS
  {
    Valid(Struck(e, inPayload, j, d)) && !Resonant(Struck(e, inPayload, j, d))
  }

  // ---------------------------------------------------------------- how the LSN enters

  /** The key depends on the lowest 16 bits of both halves of the LSN. */
  lemma KeyBaseIs(lsn: nat)
    ensures KeyBase(lsn) == Words.Xor(lsn % 0x1_0000, lsn / 0x1_0000_0000 % 0x1_0000)
  {
    Words.Pow16();
    hide Words.Pow2, Words.Xor;
    Words.XorLow(lsn, lsn / 0x1_0000_0000, 16);
  }

  /** LSNs below 2^16 are their own base. */
  lemma SmallKeyBase(lsn: nat)
    requires lsn < 0x1_0000
    ensures KeyBase(lsn) == lsn
  {
    assert lsn / 0x1_0000_0000 == 0;
    assert Words.Xor(lsn, 0) == lsn;
  }

  /** Two LSNs share the key of a lane exactly if their bases round up to the same even number modulo 2^16. */
  lemma SharedKey(s: nat, t: nat, j: nat)
    ensures Key(s, j) == Key(t, j) <==> (KeyBase(s) + 1) / 2 % 0x8000 == (KeyBase(t) + 1) / 2 % 0x8000
  {
    hide KeyBase;
    KeyOfBase(KeyBase(s), s, j);
    KeyOfBase(KeyBase(t), t, j);
    var x, y, c := (KeyBase(s) + 1) / 2, (KeyBase(t) + 1) / 2, j / 2;
    Shifted(x, y, c);
  }

  lemma KeyOfBase(h: nat, lsn: nat, j: nat)
    requires h == KeyBase(lsn)
    ensures Key(lsn, j) == 2 * (((h + 1) / 2 + j / 2) % 0x8000) + 1
  {
    hide KeyBase;
  }

  lemma Shifted(x: nat, y: nat, c: nat)
    ensures (x + c) % 0x8000 == (y + c) % 0x8000 <==> x % 0x8000 == y % 0x8000
  {
  }

  /** Where the partner cell is odd, two LSNs give the same conjugate cell exactly if they share the key. */
  lemma ConjugateTells(payload: seq<int>, s: nat, t: nat, j: nat)
    requires |payload| == CELLS && j < CELLS && payload[Partner(j)] % 2 == 1
    ensures Conjugate(payload, s, j) == Conjugate(payload, t, j) <==> Key(s, j) == Key(t, j)
  {
    hide Key, Wrap16, Zero16;
    if Conjugate(payload, s, j) == Conjugate(payload, t, j) {
      var q := ConjugateForm(payload, s, j);
      var r := ConjugateForm(payload, t, j);
      FactorsAgree(payload[Partner(j)], Factor(s, j), Factor(t, j), q, r);
      KeyIsCell(s, j);
      KeyIsCell(t, j);
      CellsAgree(Key(s, j), Key(t, j), if j % 2 == 0 then -1 else 1);
    }
  }

  lemma FactorsAgree(p: int, x: int, y: int, q: int, r: int)
    requires p % 2 == 1 && p * x + 0x1_0000 * q == p * y + 0x1_0000 * r
    ensures Zero16(x - y)
  {
    assert p * (x - y) == p * x - p * y;
    SameLow(0, p * (x - y), r - q);
    OddCancels16(p, x - y);
  }

  lemma CellsAgree(x: nat, y: nat, sign: int)
    requires x < 0x1_0000 && y < 0x1_0000 && (sign == 1 || sign == -1) && Zero16(sign * x - sign * y)
    ensures x == y
  {
  }

  lemma KeyIsCell(lsn: nat, j: nat)
    ensures Key(lsn, j) < 0x1_0000
  {
    hide KeyBase;
  }

  // ---------------------------------------------------------------- the envelope object

  class SovereignSignal {
    const payload: array<int>
    const conjugate: array<int>

    ghost predicate Cells()
      reads this, payload, conjugate
    {
      payload != conjugate && Valid(View())
    }

    ghost function View(): Envelope
      reads this, payload, conjugate
    {
      Envelope(payload[..], conjugate[..])
    }

    constructor (data: seq<int>)
      requires |data| == CELLS && forall i :: 0 <= i < CELLS ==> IsCell(data[i])
      ensures Cells() && fresh(payload) && fresh(conjugate)
      ensures View() == Envelope(data, VOID.conjugate)
    {
      payload := new int[CELLS](i requires 0 <= i < CELLS => data[i]);
      conjugate := new int[CELLS](i => 0);
    }

    method Seal(lsn: nat)
      requires Cells() && Words.IsWord(lsn)
      modifies conjugate
      ensures Cells() && View() == Sealed(old(payload[..]), lsn)
    {
      hide Conjugate;
      var d := payload[..];
      forall j | 0 <= j < CELLS {
        conjugate[j] := Conjugate(d, lsn, j);
      }
      assert payload[..] == d && conjugate[..] == Sealed(d, lsn).conjugate;
      SealedValid(d, lsn);
    }

    /** Leaves the envelope alone and returns true, or zeroes all of it and returns false. */
    method ValidateAndVaporize() returns (ok: bool)
      requires Cells()
      modifies payload, conjugate
      ensures Cells() && ok == Resonant(old(View()))
      ensures View() == if ok then old(View()) else VOID
    {
      hide Lane, Zero16;
      var e := Envelope(payload[..], conjugate[..]);
      ok := Resonant(e);
      if !ok {
        forall j | 0 <= j < CELLS {
          payload[j] := 0;
        }
        forall j | 0 <= j < CELLS {
          conjugate[j] := 0;
        }
        assert payload[..] == VOID.payload && conjugate[..] == VOID.conjugate;
      }
    }

    /** Whether all 64 bytes are zero. */
    method IsVoid() returns (void: bool)
      requires Cells()
      ensures void <==> View() == VOID
    {
      void := forall i :: 0 <= i < CELLS ==> payload[i] == 0 && conjugate[i] == 0;
      assert void ==> payload[..] == VOID.payload && conjugate[..] == VOID.conjugate;
      assert forall i :: 0 <= i < CELLS ==> payload[i] == View().payload[i] && conjugate[i] == View().conjugate[i];
    }
  }
}
