/** Vector lanes with a substance mask (include/slabflux/compute/axiomatic_vector.hpp:158-242). */
module Lanes {
  import opened Lattice

  /** The element type: its zero and its addition. */
  datatype Algebra<!T> = Algebra(zero: T, plus: (T, T) -> T)

  datatype Lane<T> = Lane(data: seq<T>, mask: seq<bool>)

  predicate Shaped<T>(lane: Lane<T>, n: nat) { |lane.data| == n && |lane.mask| == n }

  // ---------------------------------------------------------------- the invariants of a lane

  /** Something present after something absent. */
  predicate Hole(mask: seq<bool>) {
    exists i, j :: 0 <= i < j < |mask| && !mask[i] && mask[j]
  }

  /** An absent element that is not zero. */
  predicate Dirty<T(==)>(zero: T, lane: Lane<T>)
    requires |lane.data| == |lane.mask|
  {
    exists i :: 0 <= i < |lane.mask| && !lane.mask[i] && lane.data[i] != zero
  }

  predicate Prefix(mask: seq<bool>, p: nat) {
    p <= |mask| && forall i :: 0 <= i < |mask| ==> mask[i] == (i < p)
  }

  function FirstAbsent(mask: seq<bool>, i: nat): (p: nat)
    requires i <= |mask| && forall j :: 0 <= j < i ==> mask[j]
    ensures p <= |mask| && (forall j :: 0 <= j < p ==> mask[j]) && (p < |mask| ==> !mask[p])
    decreases |mask| - i
  {
    if i == |mask| || !mask[i] then i else FirstAbsent(mask, i + 1)
  }

  /** A mask has no hole exactly when it is a run of trues followed by falses. */
  lemma NoHoleIsPrefix(mask: seq<bool>)
    ensures !Hole(mask) <==> exists p: nat :: Prefix(mask, p)
  {
    if !Hole(mask) {
      var p := FirstAbsent(mask, 0);
      assert Prefix(mask, p);
    }
  }

  /** What a lane's invariant check reports. */
  function Report<T(==)>(zero: T, lane: Lane<T>): nat
    requires |lane.data| == |lane.mask|
  {
    if Hole(lane.mask) then TOPOLOGY_VIOLATION else if Dirty(zero, lane) then INVALID_STATE else NO_ERROR
  }

  /** The joins that occur among 1, 2, 3, 10 and 30. */
  lemma Joins()
    ensures Join(1, 1) == 1 && Join(1, 2) == 2 && Join(2, 1) == 2 && Join(2, 2) == 2
    ensures Join(1, 10) == 10 && Join(2, 10) == 10 && Join(30, 10) == 30
    ensures Join(10, 30) == 30 && Join(1, 30) == 30 && Join(2, 30) == 30 && Join(30, 30) == 30
    ensures Join(30, 1) == 30 && Join(30, 2) == 30 && Join(1, 3) == 3 && Join(3, 30) == 30
  {
    assert Gcd(1, 10) == Gcd(10, 1) == 1 && Gcd(2, 10) == Gcd(10, 2) == 2 && Gcd(30, 10) == 10;
    assert Gcd(10, 30) == Gcd(30, 10) == 10 && Gcd(1, 30) == Gcd(30, 1) == 1;
    assert Gcd(2, 30) == Gcd(30, 2) == 2 && Gcd(3, 30) == Gcd(30, 3) == 3 && Gcd(30, 30) == 30;
  }

  /** The checking loop of the source. */
  method CheckInvariants<T(==)>(zero: T, lane: Lane<T>) returns (error: nat)
    requires |lane.data| == |lane.mask|
    ensures error == Report(zero, lane)
  {
    hide Join, Gcd;
    Joins();
    error := NO_ERROR;
    var vacuum := false;
    var i := 0;
    while i < |lane.mask|
      invariant 0 <= i <= |lane.mask|
      invariant vacuum <==> exists j :: 0 <= j < i && !lane.mask[j]
      invariant error == 30 <==> exists j, k :: 0 <= j < k < i && !lane.mask[j] && lane.mask[k]
      invariant error == 30 ||
                error == if exists j :: 0 <= j < i && !lane.mask[j] && lane.data[j] != zero then 2 else 1
    {
      if !lane.mask[i] {
        vacuum := true;
      } else if vacuum {
        error := Join(error, INVALID_MASK);
        error := Join(error, TOPOLOGY_VIOLATION);
      }
      if !lane.mask[i] && lane.data[i] != zero {
        error := Join(error, INVALID_STATE);
      }
      i := i + 1;
    }
  }

  // ---------------------------------------------------------------- construction

  /** The mask a lane of width `n` gets from `count` given entries. */
  function Given(masks: seq<bool>, count: nat, n: nat): (m: seq<bool>)
    requires count <= |masks| || n <= |masks|
    ensures |m| == n
  {
    seq(n, i requires 0 <= i < n => i < count && masks[i])
  }

  function Filled<T>(a: Algebra<T>, values: seq<T>, masks: seq<bool>, count: nat, n: nat): (d: seq<T>)
    requires (count <= |masks| && count <= |values|) || (n <= |masks| && n <= |values|)
    ensures |d| == n
  {
    seq(n, i requires 0 <= i < n => if i < count && masks[i] then values[i] else a.zero)
  }

  /** Copies what is given, zeroes the rest, and reports: 30 exactly when the mask has a hole, 1 exactly
      when it has none and nothing is missing, 2 otherwise. */
  method Construct<T(==)>(a: Algebra<T>, values: seq<T>, masks: seq<bool>, count: nat, n: nat)
    returns (v: Validated<Lane<T>>)
    requires 0 < n
    requires (count <= |masks| && count <= |values|) || (n <= |masks| && n <= |values|)
    ensures v.manifold == Lane(Filled(a, values, masks, count, n), Given(masks, count, n))
    ensures v.state == TOPOLOGY_VIOLATION <==> Hole(Given(masks, count, n))
    ensures v.state == NO_ERROR <==> count >= n && exists p: nat :: Prefix(Given(masks, count, n), p)
    ensures v.state in {NO_ERROR, INVALID_STATE, TOPOLOGY_VIOLATION}
  {
    hide Join, Gcd;
    Joins();
    var error := NO_ERROR;
    if count < n {
      error := Join(error, INVALID_STATE);
    }
    var iter := if count < n then count else n;
    var data, mask := [], [];
    var i := 0;
    while i < iter
      invariant 0 <= i <= iter && |data| == |mask| == i
      invariant forall j :: 0 <= j < i ==> mask[j] == masks[j] && data[j] == if masks[j] then values[j] else a.zero
    {
      mask := mask + [masks[i]];
      data := data + [if masks[i] then values[i] else a.zero];
      i := i + 1;
    }
    while i < n
      invariant iter <= i <= n && |data| == |mask| == i
      invariant forall j :: 0 <= j < iter ==> mask[j] == masks[j] && data[j] == if masks[j] then values[j] else a.zero
      invariant forall j :: iter <= j < i ==> !mask[j] && data[j] == a.zero
    {
      mask := mask + [false];
      data := data + [a.zero];
      i := i + 1;
    }
    var lane := Lane(data, mask);
    assert mask == Given(masks, count, n) && data == Filled(a, values, masks, count, n);
    assert !Dirty(a.zero, lane);
    NoHoleIsPrefix(mask);
    var report := CheckInvariants(a.zero, lane);
    v := Validated(lane, Join(error, report));
  }

  // ---------------------------------------------------------------- addition

  /** Lanes meet where both are present; what lies beyond the shorter one stays as it was. */
  function Sum<T>(a: Algebra<T>, x: Lane<T>, y: Lane<T>): (r: Lane<T>)
    requires Shaped(x, |x.mask|) && Shaped(y, |y.mask|)
    ensures Shaped(r, |x.mask|)
  {
    Lane(
      seq(|x.mask|, i requires 0 <= i < |x.mask| =>
        if i >= |y.mask| then x.data[i] else if x.mask[i] && y.mask[i] then a.plus(x.data[i], y.data[i]) else a.zero),
      seq(|x.mask|, i requires 0 <= i < |x.mask| => x.mask[i] && (i >= |y.mask| || y.mask[i])))
  }

  method Add<T(==)>(a: Algebra<T>, x: Lane<T>, y: Lane<T>) returns (v: Validated<Lane<T>>)
    requires Shaped(x, |x.mask|) && Shaped(y, |y.mask|)
    ensures v.manifold == Sum(a, x, y)
    ensures v.state == if |x.mask| != |y.mask| then TOPOLOGY_VIOLATION else Report(a.zero, Sum(a, x, y))
  {
    hide Join, Gcd, Report;
    Joins();
    var n, m := |x.mask|, |y.mask|;
    var error := NO_ERROR;
    if n != m {
      error := Join(error, LANE_COUNT_MISMATCH);
      error := Join(error, TOPOLOGY_VIOLATION);
    }
    var data, mask := x.data, x.mask;
    var least := if n < m then n else m;
    var i := 0;
    while i < least
      invariant 0 <= i <= least && |data| == |mask| == n
      invariant forall j :: 0 <= j < i ==> mask[j] == Sum(a, x, y).mask[j] && data[j] == Sum(a, x, y).data[j]
      invariant forall j :: i <= j < n ==> mask[j] == x.mask[j] && data[j] == x.data[j]
    {
      mask := mask[i := x.mask[i] && y.mask[i]];
      data := data[i := if mask[i] then a.plus(x.data[i], y.data[i]) else a.zero];
      i := i + 1;
    }
    assert Lane(data, mask) == Sum(a, x, y);
    var report := CheckInvariants(a.zero, Lane(data, mask));
    Reports(a.zero, Sum(a, x, y));
    v := Validated(Lane(data, mask), Join(error, report));
  }

  lemma Reports<T>(zero: T, lane: Lane<T>)
    requires |lane.data| == |lane.mask|
    ensures Report(zero, lane) in {NO_ERROR, INVALID_STATE, TOPOLOGY_VIOLATION}
  {
  }

  // ---------------------------------------------------------------- pure lanes

  predicate Pure<T(==)>(zero: T, lane: Lane<T>, n: nat) { Shaped(lane, n) && Report(zero, lane) == NO_ERROR }

  /** Pure lanes of one width are closed under addition. */
  lemma SumIsPure<T>(a: Algebra<T>, x: Lane<T>, y: Lane<T>, n: nat)
    requires Pure(a.zero, x, n) && Pure(a.zero, y, n)
    ensures Pure(a.zero, Sum(a, x, y), n)
  {
    var r := Sum(a, x, y);
    NoHoleIsPrefix(x.mask);
    NoHoleIsPrefix(y.mask);
    var p: nat :| Prefix(x.mask, p);
    var q: nat :| Prefix(y.mask, q);
    assert Prefix(r.mask, if p < q then p else q);
    NoHoleIsPrefix(r.mask);
  }

  ghost predicate Commutative<T(!new)>(a: Algebra<T>) { forall x, y :: a.plus(x, y) == a.plus(y, x) }

  ghost predicate Associative<T(!new)>(a: Algebra<T>) {
    forall x, y, z :: a.plus(x, a.plus(y, z)) == a.plus(a.plus(x, y), z)
  }

  /** Addition of pure lanes of one width commutes when element addition does. */
  lemma SumCommutes<T(!new)>(a: Algebra<T>, x: Lane<T>, y: Lane<T>, n: nat)
    requires Commutative(a) && Pure(a.zero, x, n) && Pure(a.zero, y, n)
    ensures Sum(a, x, y) == Sum(a, y, x)
  {
    hide Report;
    assert Sum(a, x, y).data == Sum(a, y, x).data;
    assert Sum(a, x, y).mask == Sum(a, y, x).mask;
  }

  /** Addition of pure lanes of one width associates when element addition does. */
  lemma SumAssociates<T(!new)>(a: Algebra<T>, x: Lane<T>, y: Lane<T>, z: Lane<T>, n: nat)
    requires Associative(a) && Pure(a.zero, x, n) && Pure(a.zero, y, n) && Pure(a.zero, z, n)
    ensures Sum(a, x, Sum(a, y, z)) == Sum(a, Sum(a, x, y), z)
  {
    hide Report;
    assert Sum(a, x, Sum(a, y, z)).data == Sum(a, Sum(a, x, y), z).data;
    assert Sum(a, x, Sum(a, y, z)).mask == Sum(a, Sum(a, x, y), z).mask;
  }

  /** A lane of zeros that are all present. */
  function Zeros<T>(a: Algebra<T>, n: nat): Lane<T> { Lane(seq(n, i => a.zero), seq(n, i => true)) }

  /** Adding present zeros to a pure lane, on either side, gives that lane back when adding zero does. */
  lemma SumIdentity<T(!new)>(a: Algebra<T>, x: Lane<T>, n: nat)
    requires Pure(a.zero, x, n) && forall v :: a.plus(v, a.zero) == v && a.plus(a.zero, v) == v
    ensures Sum(a, x, Zeros(a, n)) == x && Sum(a, Zeros(a, n), x) == x
  {
    assert forall i :: 0 <= i < n && !x.mask[i] ==> x.data[i] == a.zero;
    assert Sum(a, x, Zeros(a, n)).data == x.data && Sum(a, x, Zeros(a, n)).mask == x.mask;
    assert Sum(a, Zeros(a, n), x).data == x.data && Sum(a, Zeros(a, n), x).mask == x.mask;
  }

  /** Adding a lane in which nothing is present leaves nothing present. */
  lemma SumAbsorbs<T>(a: Algebra<T>, x: Lane<T>, y: Lane<T>, n: nat)
    requires Shaped(x, n) && Shaped(y, n) && forall i :: 0 <= i < n ==> !y.mask[i]
    ensures Sum(a, x, y) == Lane(seq(n, i => a.zero), seq(n, i => false))
  {
    assert Sum(a, x, y).data == seq(n, i => a.zero) && Sum(a, x, y).mask == seq(n, i => false);
  }
}
