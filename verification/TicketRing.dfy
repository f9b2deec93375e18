/** The multi-producer ring (include/slabflux/bridge/conduit_primitives.hpp:124-178).

    Producers claim a slot by a compare-and-swap on a gate that packs a 32-bit version above a 32-bit
    index, write the slot, and count it. They interleave at the granularity of one shared access per
    step. `claims` and `late` only record the run; no step depends on them. */
module TicketRing {
  import opened Modular
  import opened Words
  import opened Wrappers

  /** A power of two that a 32-bit index can address, which is the same as a divisor of 2^32. The mask
      `& (n - 1)` is then the remainder modulo `n`. */
  predicate IsContext(n: nat) { 0 < n && TWO_32 % n == 0 }

  function Gate(version: nat, index: nat): nat { version * TWO_32 + index }

  function IndexOf(gate: nat): nat { gate % TWO_32 }

  function VersionOf(gate: nat): nat { gate / TWO_32 }

  /** The gate a producer tries to install: version and index each one further, both wrapping. */
  function Bumped(gate: nat, n: nat): nat
    requires 0 < n
  {
    Gate((VersionOf(gate) + 1) % TWO_32, (IndexOf(gate) + 1) % n)
  }

  /** Where a producer is inside `process_signal`. */
  datatype Stage<V> =
    | Idle
    | Loaded(input: V, gate: nat)
    | Claimed(input: V, index: nat, ticket: nat)
    | Written(index: nat)
    | Counted(index: nat, elements: nat)

  datatype Action<V> = Process(tid: nat, input: V) | Advance(tid: nat)

  datatype State<V> = State(
    gate: nat,
    ring: seq<V>,
    active: nat,
    threads: seq<Stage<V>>,
    claims: seq<V>,
    late: bool)

  function Start<V>(n: nat, blank: V, producers: nat): State<V> {
    State(0, seq(n, i => blank), 0, seq(producers, i => Idle), [], false)
  }

  function At<V>(s: State<V>, t: nat, stage: Stage<V>): State<V>
    requires t < |s.threads|
  {
    s.(threads := s.threads[t := stage])
  }

  /** The next access of producer `t`. */
  function Step<V>(s: State<V>, t: nat): State<V>
    requires 0 < |s.ring| && t < |s.threads|
  {
    match s.threads[t]
    case Idle => s
    case Loaded(input, gate) =>
      if s.gate == gate then
        At(s, t, Claimed(input, IndexOf(gate), |s.claims|))
        .(gate := Bumped(gate, |s.ring|), claims := s.claims + [input])
      else At(s, t, Loaded(input, s.gate))
    case Claimed(input, index, ticket) =>
      if index < |s.ring| then
        At(s, t, Written(index))
        .(ring := s.ring[index := input], late := s.late || |s.claims| > ticket + |s.ring|)
      else s
    case Written(index) => At(s, t, Counted(index, s.active))
    case Counted(index, elements) =>
      // A full ring hands back the slot after `index`, which changes nothing here.
      At(s, t, Idle).(active := if elements < |s.ring| then s.active + 1 else s.active)
  }

  /** One step of the run; an action that is not possible leaves the state as it is. */
  function Next<V>(s: State<V>, a: Action<V>): (s': State<V>)
    requires 0 < |s.ring|
    ensures |s'.ring| == |s.ring| && |s'.threads| == |s.threads|
  {
    if a.tid >= |s.threads| then s
    else match a
      case Process(t, input) => if s.threads[t].Idle? then At(s, t, Loaded(input, s.gate)) else s
      case Advance(t) => Step(s, t)
  }

  function Run<V>(n: nat, blank: V, producers: nat, actions: seq<Action<V>>, k: nat): (s: State<V>)
    requires 0 < n && k <= |actions|
    ensures |s.ring| == n && |s.threads| == producers
  {
    if k == 0 then Start(n, blank, producers) else Next(Run(n, blank, producers, actions, k - 1), actions[k - 1])
  }

  // ---------------------------------------------------------------- the gate

  /** After `n` successful claims the gate holds `n`, once modulo 2^32 and once modulo the ring size. */
  predicate GateOk<V>(s: State<V>) {
    IsContext(|s.ring|) && s.gate == Gate(|s.claims| % TWO_32, |s.claims| % |s.ring|)
  }

  lemma DivisorIsSmaller(n: nat)
    requires IsContext(n)
    ensures n <= TWO_32
  {
    if n > TWO_32 {
      Remainder(TWO_32, 0, TWO_32, n);
    }
  }

  lemma Unpacked(version: nat, index: nat)
    requires index < TWO_32
    ensures IndexOf(Gate(version, index)) == index && VersionOf(Gate(version, index)) == version
  {
  }

  lemma Packed<V>(s: State<V>)
    requires GateOk(s)
    ensures IndexOf(s.gate) == |s.claims| % |s.ring| && VersionOf(s.gate) == |s.claims| % TWO_32
    ensures IndexOf(s.gate) == VersionOf(s.gate) % |s.ring|
  {
    DivisorIsSmaller(|s.ring|);
    Unpacked(|s.claims| % TWO_32, |s.claims| % |s.ring|);
    Nested(|s.claims|, TWO_32, |s.ring|);
  }

  lemma BumpedOk<V>(s: State<V>)
    requires GateOk(s)
    ensures Bumped(s.gate, |s.ring|) == Gate((|s.claims| + 1) % TWO_32, (|s.claims| + 1) % |s.ring|)
  {
    hide Gate, IndexOf, VersionOf;
    Packed(s);
    AddModulo(|s.claims|, 1, TWO_32);
    AddModulo(|s.claims|, 1, |s.ring|);
  }

  // ---------------------------------------------------------------- the slots

  /** A producer between its claim and its write holds the slot of its ticket. */
  ghost predicate TicketsOk<V>(s: State<V>) {
    && 0 < |s.ring|
    && (forall p :: 0 <= p < |s.threads| && s.threads[p].Claimed? ==> TicketOk(s, s.threads[p]))
    && (forall p, q :: 0 <= p < q < |s.threads| && s.threads[p].Claimed? && s.threads[q].Claimed? ==>
          s.threads[p].ticket != s.threads[q].ticket)
  }

  ghost predicate TicketOk<V>(s: State<V>, g: Stage<V>)
    requires 0 < |s.ring| && g.Claimed?
  {
    && g.ticket < |s.claims|
    && s.claims[g.ticket] == g.input
    && g.index == g.ticket % |s.ring|
  }

  predicate Pending<V>(s: State<V>, t: nat) {
    exists p :: 0 <= p < |s.threads| && s.threads[p].Claimed? && s.threads[p].ticket == t
  }

  /** Unless a producer wrote after it had been overtaken, each of the last claims is in its slot as
      soon as it has been written. */
  ghost predicate SlotsOk<V>(s: State<V>) {
    && 0 < |s.ring|
    && (!s.late ==>
          forall t :: 0 <= t < |s.claims| <= t + |s.ring| && !Pending(s, t) ==> s.ring[t % |s.ring|] == s.claims[t])
  }

  // ---------------------------------------------------------------- the occupancy

  /** Producers among the first `k` that have decided to count and not yet done so. */
  function Counting<V>(s: State<V>, k: nat): (m: nat)
    requires k <= |s.threads|
    ensures m <= k
  {
    if k == 0 then 0
    else Counting(s, k - 1) + if s.threads[k - 1].Counted? && s.threads[k - 1].elements < |s.ring| then 1 else 0
  }

  predicate CountOk<V>(s: State<V>) {
    s.active + Counting(s, |s.threads|) < |s.ring| + |s.threads|
  }

  function Weight<V>(s: State<V>, g: Stage<V>): nat { if g.Counted? && g.elements < |s.ring| then 1 else 0 }

  lemma {:induction false} CountingMoves<V>(s: State<V>, s': State<V>, t: nat, k: nat)
    requires k <= |s.threads| == |s'.threads| && t < |s.threads| && |s'.ring| == |s.ring|
    requires forall p :: 0 <= p < |s.threads| && p != t ==> s'.threads[p] == s.threads[p]
    ensures Counting(s', k) ==
            Counting(s, k) + if t < k then Weight(s, s'.threads[t]) - Weight(s, s.threads[t]) else 0
  {
    if k == 0 {
    } else {
      CountingMoves(s, s', t, k - 1);
    }
  }

  lemma CountKeeps<V>(s: State<V>, t: nat)
    requires 0 < |s.ring| && t < |s.threads| && CountOk(s)
    ensures CountOk(Step(s, t))
  {
    var s' := Step(s, t);
    CountingMoves(s, s', t, |s.threads|);
  }

  // ---------------------------------------------------------------- every run

  ghost predicate Inv<V>(s: State<V>) { GateOk(s) && TicketsOk(s) && SlotsOk(s) && CountOk(s) }

  lemma ClaimKeeps<V>(s: State<V>, t: nat)
    requires Inv(s) && t < |s.threads| && s.threads[t].Loaded? && s.threads[t].gate == s.gate
    ensures GateOk(Step(s, t)) && TicketsOk(Step(s, t)) && SlotsOk(Step(s, t))
  {
    hide Gate, IndexOf, VersionOf, Bumped, Pending, CountOk;
    Packed(s);
    BumpedOk(s);
    var s' := Step(s, t);
    assert Pending(s', |s.claims|) by { NowPending(s', t); }
    forall u | 0 <= u < |s.claims|
      ensures Pending(s', u) <==> Pending(s, u)
    {
      SamePending(s, s', t, u);
    }
  }

  lemma NowPending<V>(s: State<V>, t: nat)
    requires t < |s.threads| && s.threads[t].Claimed?
    ensures Pending(s, s.threads[t].ticket)
  {
  }

  lemma SamePending<V>(s: State<V>, s': State<V>, t: nat, u: nat)
    requires t < |s.threads| == |s'.threads|
    requires forall p :: 0 <= p < |s.threads| && p != t ==> s'.threads[p] == s.threads[p]
    requires s.threads[t].Claimed? ==> s.threads[t].ticket != u
    requires s'.threads[t].Claimed? ==> s'.threads[t].ticket != u
    ensures Pending(s', u) <==> Pending(s, u)
  {
    if Pending(s, u) {
      var p :| 0 <= p < |s.threads| && s.threads[p].Claimed? && s.threads[p].ticket == u;
      assert s'.threads[p] == s.threads[p];
    }
    if Pending(s', u) {
      var p :| 0 <= p < |s'.threads| && s'.threads[p].Claimed? && s'.threads[p].ticket == u;
      assert s'.threads[p] == s.threads[p];
    }
  }

  lemma WriteKeeps<V>(s: State<V>, t: nat)
    requires Inv(s) && t < |s.threads| && s.threads[t].Claimed?
    ensures GateOk(Step(s, t)) && TicketsOk(Step(s, t)) && SlotsOk(Step(s, t))
  {
    hide Gate, Pending, CountOk;
    var s', n := Step(s, t), |s.ring|;
    var own := s.threads[t].ticket;
    assert TicketOk(s, s.threads[t]);
    if !s'.late {
      forall u | 0 <= u < |s.claims| <= u + n && !Pending(s', u)
        ensures s'.ring[u % n] == s.claims[u]
      {
        if u != own {
          SamePending(s, s', t, u);
          if u < own {
            SlotsDiffer(u, own, n);
          } else {
            SlotsDiffer(own, u, n);
          }
        }
      }
    }
  }

  lemma OtherKeeps<V>(s: State<V>, s': State<V>, t: nat)
    requires Inv(s) && t < |s.threads| == |s'.threads|
    requires !s.threads[t].Claimed? && !s'.threads[t].Claimed?
    requires s'.gate == s.gate && s'.ring == s.ring && s'.claims == s.claims && s'.late == s.late
    requires s'.threads == s.threads[t := s'.threads[t]]
    ensures GateOk(s') && TicketsOk(s') && SlotsOk(s')
  {
    hide Gate, Pending, CountOk;
    forall u | 0 <= u < |s.claims|
      ensures Pending(s', u) <==> Pending(s, u)
    {
      SamePending(s, s', t, u);
    }
  }

  lemma StepKeeps<V>(s: State<V>, a: Action<V>)
    requires Inv(s)
    ensures Inv(Next(s, a))
  {
    hide GateOk, TicketsOk, SlotsOk, CountOk;
    RingNotEmpty(s);
    if a.tid < |s.threads| {
      var t, s' := a.tid, Next(s, a);
      if a.Process? {
        if s.threads[t].Idle? {
          OtherKeeps(s, s', t);
          LoadCounts(s, s', t);
        }
      } else {
        CountKeeps(s, t);
        if s.threads[t].Loaded? && s.threads[t].gate == s.gate {
          ClaimKeeps(s, t);
        } else if s.threads[t].Claimed? {
          WriteKeeps(s, t);
        } else {
          OtherKeeps(s, s', t);
        }
      }
    }
  }

  lemma RingNotEmpty<V>(s: State<V>)
    requires GateOk(s)
    ensures 0 < |s.ring|
  {
  }

  lemma LoadCounts<V>(s: State<V>, s': State<V>, t: nat)
    requires CountOk(s) && t < |s.threads| && s.threads[t].Idle?
    requires exists input, gate :: s' == At(s, t, Loaded(input, gate))
    ensures CountOk(s')
  {
    CountingMoves(s, s', t, |s.threads|);
  }

  lemma {:induction false} RunKeeps<V>(n: nat, blank: V, producers: nat, actions: seq<Action<V>>, k: nat)
    requires IsContext(n) && k <= |actions|
    ensures Inv(Run(n, blank, producers, actions, k))
  {
    hide Next, Inv;
    if k == 0 {
      StartOk(n, blank, producers);
    } else {
      RunKeeps(n, blank, producers, actions, k - 1);
      StepKeeps(Run(n, blank, producers, actions, k - 1), actions[k - 1]);
    }
  }

  lemma StartOk<V>(n: nat, blank: V, producers: nat)
    requires IsContext(n)
    ensures Inv(Start(n, blank, producers))
  {
    NoneCounting(Start(n, blank, producers), producers);
    Remainder(0, 0, 0, n);
  }

  lemma {:induction false} NoneCounting<V>(s: State<V>, k: nat)
    requires k <= |s.threads| && forall p :: 0 <= p < k ==> s.threads[p].Idle?
    ensures Counting(s, k) == 0
  {
    if k == 0 {
    } else {
      NoneCounting(s, k - 1);
    }
  }

  // ---------------------------------------------------------------- the theorems

  /** After `m` successful claims the version is `m` modulo 2^32 and the index `m` modulo the ring size,
      so the index is the version modulo the ring size, also once the version has wrapped. */
  lemma GateCounts<V>(n: nat, blank: V, producers: nat, actions: seq<Action<V>>, k: nat)
    requires IsContext(n) && k <= |actions|
    ensures var s := Run(n, blank, producers, actions, k);
            && VersionOf(s.gate) == |s.claims| % TWO_32
            && IndexOf(s.gate) == |s.claims| % n == VersionOf(s.gate) % n
  {
    hide Run;
    RunKeeps(n, blank, producers, actions, k);
    Packed(Run(n, blank, producers, actions, k));
  }

  /** Producer `t` makes no access between two moments. */
  predicate Pauses<V>(actions: seq<Action<V>>, t: nat, m: nat, k: nat)
    requires k <= |actions|
  {
    forall i :: m <= i < k ==> actions[i].tid != t
  }

  lemma OthersMove<V>(s: State<V>, a: Action<V>, t: nat)
    requires 0 < |s.ring| && t < |s.threads| && a.tid != t
    ensures Next(s, a).threads[t] == s.threads[t]
  {
  }

  lemma {:induction false} StaysThere<V>(
    n: nat, blank: V, producers: nat, actions: seq<Action<V>>, t: nat, m: nat, k: nat)
    requires 0 < n && m <= k <= |actions| && t < producers && Pauses(actions, t, m, k)
    ensures Run(n, blank, producers, actions, k).threads[t] == Run(n, blank, producers, actions, m).threads[t]
  {
    hide Next;
    if k == m {
    } else {
      StaysThere(n, blank, producers, actions, t, m, k - 1);
      OthersMove(Run(n, blank, producers, actions, k - 1), actions[k - 1], t);
    }
  }

  lemma GatesMeet<V>(s: State<V>, s': State<V>)
    requires GateOk(s) && GateOk(s') && |s.ring| == |s'.ring|
    ensures s.gate == s'.gate <==> |s.claims| % TWO_32 == |s'.claims| % TWO_32
  {
    hide Gate, VersionOf, IndexOf;
    Packed(s);
    Packed(s');
    Nested(|s.claims|, TWO_32, |s.ring|);
    Nested(|s'.claims|, TWO_32, |s.ring|);
  }

  lemma RunGate<V>(n: nat, blank: V, producers: nat, actions: seq<Action<V>>, k: nat)
    requires IsContext(n) && k <= |actions|
    ensures GateOk(Run(n, blank, producers, actions, k))
  {
    hide Run, GateOk;
    RunKeeps(n, blank, producers, actions, k);
  }

  /** A producer that read the gate at moment `m` and tries to claim at moment `k` succeeds if and only if the
      numbers of claims at the two moments agree modulo 2^32; then its item is the next claim, and otherwise it
      has read the gate again. */
  lemma {:induction false} ClaimsIff<V>(
    n: nat, blank: V, producers: nat, actions: seq<Action<V>>, t: nat, input: V, m: nat, k: nat)
    requires IsContext(n) && m <= k < |actions| && t < producers && Pauses(actions, t, m, k)
    requires actions[k] == Advance(t)
    requires Run(n, blank, producers, actions, m).threads[t] == Loaded(input, Run(n, blank, producers, actions, m).gate)
    ensures var at, s := Run(n, blank, producers, actions, m), Run(n, blank, producers, actions, k);
            var s' := Run(n, blank, producers, actions, k + 1);
            if |at.claims| % TWO_32 == |s.claims| % TWO_32 then
              && s'.claims == s.claims + [input]
              && s'.threads[t] == Claimed(input, |s.claims| % n, |s.claims|)
            else s'.claims == s.claims && s'.threads[t] == Loaded(input, s'.gate)
  {
    StaysThere(n, blank, producers, actions, t, m, k);
    RunGate(n, blank, producers, actions, m);
    RunGate(n, blank, producers, actions, k);
    var at, s := Run(n, blank, producers, actions, m), Run(n, blank, producers, actions, k);
    GatesMeet(at, s);
    Packed(s);
    assert Run(n, blank, producers, actions, k + 1) == Step(s, t);
  }

  /** The step that makes claim number `m` gives its producer slot `m` modulo the ring size. */
  lemma ClaimOwnsSlot<V>(n: nat, blank: V, producers: nat, actions: seq<Action<V>>, k: nat)
    requires IsContext(n) && k < |actions|
    requires |Run(n, blank, producers, actions, k + 1).claims| > |Run(n, blank, producers, actions, k).claims|
    ensures var s, s' := Run(n, blank, producers, actions, k), Run(n, blank, producers, actions, k + 1);
            && actions[k].Advance? && actions[k].tid < producers
            && s.threads[actions[k].tid].Loaded?
            && s'.claims == s.claims + [s.threads[actions[k].tid].input]
            && s'.threads[actions[k].tid]
            == Claimed(s.threads[actions[k].tid].input, |s.claims| % n, |s.claims|)
  {
    RunKeeps(n, blank, producers, actions, k);
    Packed(Run(n, blank, producers, actions, k));
    hide IndexOf, Bumped;
    assert Run(n, blank, producers, actions, k + 1) == Next(Run(n, blank, producers, actions, k), actions[k]);
  }

  /** With `p` producers the element count never exceeds the ring size by `p` or more. */
  lemma OccupancyBound<V>(n: nat, blank: V, producers: nat, actions: seq<Action<V>>, k: nat)
    requires IsContext(n) && k <= |actions|
    ensures Run(n, blank, producers, actions, k).active <= n + producers - 1
  {
    hide Run;
    RunKeeps(n, blank, producers, actions, k);
  }

  /** The slot that `peek_historical` reads: 32-bit, then 64-bit wrap-around, then the mask. */
  function PeekIndex(gate: nat, back: nat, n: nat): nat
    requires 0 < n && back < TWO_64
  {
    ((IndexOf(gate) + TWO_32 - 1) % TWO_32 + TWO_64 - back + n) % TWO_64 % n
  }

  lemma PeekSlot<V>(s: State<V>, back: nat)
    requires GateOk(s) && back < |s.claims| && back < TWO_64
    ensures PeekIndex(s.gate, back, |s.ring|) == (|s.claims| - 1 - back) % |s.ring|
  {
    hide IndexOf;
    var n, m := |s.ring|, |s.claims|;
    Packed(s);
    DivisorIsSmaller(n);
    var c := TWO_32 / n;
    assert c * n == TWO_32;
    var u := (m % n + TWO_32 - 1) % TWO_32;
    var e := if m % n == 0 then c - m / n else 0 - m / n;
    assert u == m - 1 + e * n by {
      assert m == m / n * n + m % n;
      Distribute(c, m / n, n);
      assert u == if m % n == 0 then TWO_32 - 1 else m % n - 1;
    }
    var w := u + TWO_64 - back + n;
    Squares(c, n);
    Nested(w, TWO_64, n);
    assert w == m - 1 - back + (e + TWO_32 * c + 1) * n by { Distribute3(e, TWO_32 * c, n); }
    SameClass(w, m - 1 - back, e + TWO_32 * c + 1, n);
  }

  lemma Distribute(a: int, b: int, n: int)
    ensures (a - b) * n == a * n - b * n && (0 - b) * n == 0 - b * n
  {
  }

  lemma Distribute3(a: int, b: int, n: int)
    ensures (a + b + 1) * n == a * n + b * n + n
  {
  }

  lemma Squares(c: nat, n: nat)
    requires 0 < n && c * n == TWO_32
    ensures TWO_32 * c * n == TWO_64 && TWO_64 % n == 0
  {
    assert TWO_32 * c * n == TWO_32 * (c * n);
    Remainder(TWO_64, TWO_32 * c, 0, n);
  }

  predicate AtRest<V>(s: State<V>) { forall p :: 0 <= p < |s.threads| ==> s.threads[p].Idle? }

  /** At rest, when no producer wrote after as many later claims as the ring has slots, looking `back`
      steps reads the signal claimed that many claims ago, for everything the ring still holds. */
  lemma PeeksHistory<V>(n: nat, blank: V, producers: nat, actions: seq<Action<V>>, k: nat, back: nat)
    requires IsContext(n) && k <= |actions| && back < TWO_64
    requires var s := Run(n, blank, producers, actions, k); AtRest(s) && !s.late && back < |s.claims|
    requires back < n
    ensures var s := Run(n, blank, producers, actions, k);
            && PeekIndex(s.gate, back, n) < n
            && s.ring[PeekIndex(s.gate, back, n)] == s.claims[|s.claims| - 1 - back]
  {
    hide Run, PeekIndex;
    RunKeeps(n, blank, producers, actions, k);
    var s := Run(n, blank, producers, actions, k);
    PeekSlot(s, back);
    assert !Pending(s, |s.claims| - 1 - back);
  }

  /** Looking back reads the signals in the order they were claimed, as far as the ring holds them. */
  ghost predicate PeeksRight<V>(s: State<V>) {
    0 < |s.ring| &&
    forall back: nat :: back < |s.claims| && back < |s.ring| && back < TWO_64 ==> PeeksBack(s, back)
  }

  ghost predicate PeeksBack<V>(s: State<V>, back: nat)
    requires 0 < |s.ring| && back < |s.claims| && back < TWO_64
  {
    s.ring[PeekIndex(s.gate, back, |s.ring|)] == s.claims[|s.claims| - 1 - back]
  }

  // ---------------------------------------------------------------- one producer

  /** With one producer no claim comes between its own claim and its write, nor a count between its load
      and its increment. */
  ghost predicate Alone<V>(s: State<V>) {
    && |s.threads| <= 1 && 0 < |s.ring|
    && !s.late
    && s.active <= |s.ring|
    && (forall p :: 0 <= p < |s.threads| && s.threads[p].Claimed? ==> s.threads[p].ticket + 1 == |s.claims|)
    && (forall p :: 0 <= p < |s.threads| && s.threads[p].Counted? ==> s.threads[p].elements == s.active)
  }

  lemma {:induction false} AloneRun<V>(n: nat, blank: V, producers: nat, actions: seq<Action<V>>, k: nat)
    requires 0 < n && k <= |actions| && producers <= 1
    ensures Alone(Run(n, blank, producers, actions, k))
  {
    hide Bumped, IndexOf;
    if k == 0 {
    } else {
      AloneRun(n, blank, producers, actions, k - 1);
    }
  }

  // ---------------------------------------------------------------- runs built for every size

  /** Some run ends in this state. */
  ghost predicate Reached<V(!new)>(n: nat, blank: V, producers: nat, s: State<V>)
    requires 0 < n
  {
    exists actions: seq<Action<V>> :: Run(n, blank, producers, actions, |actions|) == s
  }

  lemma {:induction false} RunPrefix<V>(n: nat, blank: V, producers: nat, a: seq<Action<V>>, b: seq<Action<V>>, k: nat)
    requires 0 < n && k <= |a| && a <= b
    ensures Run(n, blank, producers, b, k) == Run(n, blank, producers, a, k)
  {
    hide Next;
    if k == 0 {
    } else {
      RunPrefix(n, blank, producers, a, b, k - 1);
    }
  }

  lemma ReachNext<V(!new)>(n: nat, blank: V, producers: nat, s: State<V>, a: Action<V>)
    requires 0 < n && Reached(n, blank, producers, s)
    ensures |s.ring| == n && |s.threads| == producers && Reached(n, blank, producers, Next(s, a))
  {
    hide Next;
    var actions: seq<Action<V>> :| Run(n, blank, producers, actions, |actions|) == s;
    var more := actions + [a];
    RunPrefix(n, blank, producers, actions, more, |actions|);
    assert Run(n, blank, producers, more, |more|) == Next(s, a);
  }

  lemma ReachStart<V(!new)>(n: nat, blank: V, producers: nat)
    requires 0 < n
    ensures Reached(n, blank, producers, Start(n, blank, producers))
  {
    assert Run(n, blank, producers, [], 0) == Start(n, blank, producers);
  }

  /** A producer that has claimed the next slot. */
  function Claiming<V>(s: State<V>, t: nat, x: V): State<V>
    requires 0 < |s.ring| && t < |s.threads|
  {
    At(s, t, Claimed(x, |s.claims| % |s.ring|, |s.claims|))
    .(gate := Bumped(s.gate, |s.ring|), claims := s.claims + [x])
  }

  /** A producer that has also written its slot and read the count. */
  function CountLoaded<V>(s: State<V>, t: nat, x: V): State<V>
    requires 0 < |s.ring| && t < |s.threads|
  {
    At(Claiming(s, t, x), t, Counted(|s.claims| % |s.ring|, s.active))
    .(ring := s.ring[|s.claims| % |s.ring| := x])
  }

  lemma ReachClaim<V(!new)>(n: nat, blank: V, producers: nat, s: State<V>, t: nat, x: V)
    requires 0 < n && Reached(n, blank, producers, s) && GateOk(s) && t < |s.threads| && s.threads[t].Idle?
    ensures |s.ring| == n && Reached(n, blank, producers, Claiming(s, t, x)) && GateOk(Claiming(s, t, x))
  {
    hide Reached, Gate, IndexOf, Bumped;
    ReachNext(n, blank, producers, s, Process(t, x));
    var s1 := Next(s, Process(t, x));
    ReachNext(n, blank, producers, s1, Advance(t));
    Packed(s);
    BumpedOk(s);
    assert Next(s1, Advance(t)) == Claiming(s, t, x);
  }

  lemma ReachCount<V(!new)>(n: nat, blank: V, producers: nat, s: State<V>, t: nat, x: V)
    requires 0 < n && Reached(n, blank, producers, s) && GateOk(s) && t < |s.threads| && s.threads[t].Idle?
    ensures |s.ring| == n && Reached(n, blank, producers, CountLoaded(s, t, x)) && GateOk(CountLoaded(s, t, x))
  {
    hide Reached, Gate, Bumped;
    ReachClaim(n, blank, producers, s, t, x);
    var s2 := Claiming(s, t, x);
    ReachNext(n, blank, producers, s2, Advance(t));
    var s3 := Next(s2, Advance(t));
    ReachNext(n, blank, producers, s3, Advance(t));
    assert Next(s3, Advance(t)) == CountLoaded(s, t, x);
  }

  lemma ReachDone<V(!new)>(n: nat, blank: V, producers: nat, s: State<V>, t: nat)
    requires 0 < n && Reached(n, blank, producers, s) && GateOk(s) && t < |s.threads| && s.threads[t].Counted?
    ensures |s.ring| == n
    ensures var s' := At(s, t, Idle).(active := if s.threads[t].elements < n then s.active + 1 else s.active);
            Reached(n, blank, producers, s') && GateOk(s')
  {
    hide Reached, Gate;
    ReachNext(n, blank, producers, s, Advance(t));
  }

  /** Calls one after another fill the count up to `m`. */
  lemma {:induction false} Fill<V(!new)>(n: nat, blank: V, x: V, producers: nat, m: nat) returns (s: State<V>)
    requires IsContext(n) && 1 <= producers && m <= n
    ensures |s.threads| == producers && |s.ring| == n
    ensures Reached(n, blank, producers, s) && GateOk(s) && AtRest(s) && s.active == m
    decreases m
  {
    hide Reached, GateOk;
    if m == 0 {
      s := Start(n, blank, producers);
      ReachStart(n, blank, producers);
      StartGate(n, blank, producers);
    } else {
      var s0 := Fill(n, blank, x, producers, m - 1);
      ReachCount(n, blank, producers, s0, 0, x);
      var s1 := CountLoaded(s0, 0, x);
      ReachDone(n, blank, producers, s1, 0);
      s := At(s1, 0, Idle).(active := s1.active + 1);
    }
  }

  lemma StartGate<V>(n: nat, blank: V, producers: nat)
    requires IsContext(n)
    ensures GateOk(Start(n, blank, producers))
  {
    Remainder(0, 0, 0, n);
  }

  /** The first `k` producers have read the count one short of full and not yet raised it. */
  lemma {:induction false} Hang<V(!new)>(n: nat, blank: V, x: V, producers: nat, k: nat) returns (s: State<V>)
    requires IsContext(n) && 1 <= producers && k <= producers
    ensures |s.threads| == producers && |s.ring| == n
    ensures Reached(n, blank, producers, s) && GateOk(s) && s.active == n - 1
    ensures forall i :: 0 <= i < k ==> s.threads[i].Counted? && s.threads[i].elements == n - 1
    ensures forall i :: k <= i < producers ==> s.threads[i].Idle?
    decreases k
  {
    hide Reached, GateOk;
    if k == 0 {
      s := Fill(n, blank, x, producers, n - 1);
    } else {
      var s0 := Hang(n, blank, x, producers, k - 1);
      ReachCount(n, blank, producers, s0, k - 1, x);
      s := CountLoaded(s0, k - 1, x);
    }
  }

  /** The first `j` of them have raised it. */
  lemma {:induction false} Raise<V(!new)>(n: nat, blank: V, x: V, producers: nat, j: nat) returns (s: State<V>)
    requires IsContext(n) && 1 <= producers && j <= producers
    ensures |s.threads| == producers && |s.ring| == n
    ensures Reached(n, blank, producers, s) && GateOk(s) && s.active == n - 1 + j
    ensures forall i :: 0 <= i < j ==> s.threads[i].Idle?
    ensures forall i :: j <= i < producers ==> s.threads[i].Counted? && s.threads[i].elements == n - 1
    decreases j
  {
    hide Reached, GateOk;
    if j == 0 {
      s := Hang(n, blank, x, producers, producers);
    } else {
      var s0 := Raise(n, blank, x, producers, j - 1);
      ReachDone(n, blank, producers, s0, j - 1);
      s := At(s0, j - 1, Idle).(active := s0.active + 1);
    }
  }

  /** The bound is reached: for every ring size and every number of producers some run ends at rest with
      the count at ring size plus producers minus one. */
  lemma OccupancyReached<V(!new)>(n: nat, blank: V, producers: nat)
    requires IsContext(n) && 1 <= producers
    ensures exists actions: seq<Action<V>> ::
              var s := Run(n, blank, producers, actions, |actions|); AtRest(s) && s.active == n + producers - 1
  {
    var s := Raise(n, blank, blank, producers, producers);
    var actions: seq<Action<V>> :| Run(n, blank, producers, actions, |actions|) == s;
  }

  /** The count stays within the ring size in all runs if and only if there is at most one producer. */
  lemma CountsWithinIffAlone<V(!new)>(n: nat, blank: V, producers: nat)
    requires IsContext(n)
    ensures producers <= 1 <==>
            forall actions: seq<Action<V>>, k: nat :: k <= |actions| ==>
              Run(n, blank, producers, actions, k).active <= n
  {
    hide Run;
    if producers <= 1 {
      forall actions: seq<Action<V>>, k: nat | k <= |actions|
        ensures Run(n, blank, producers, actions, k).active <= n
      {
        AloneRun(n, blank, producers, actions, k);
      }
    } else {
      OccupancyReached(n, blank, producers);
      var actions: seq<Action<V>> :| Run(n, blank, producers, actions, |actions|).active == n + producers - 1;
    }
  }

  /** Producer 0 holds the first claim while producer 1 makes `m` whole calls. */
  lemma {:induction false} Overtake<V(!new)>(n: nat, blank: V, a: V, b: V, producers: nat, m: nat) returns (s: State<V>)
    requires IsContext(n) && 2 <= producers
    ensures |s.threads| == producers && |s.ring| == n
    ensures Reached(n, blank, producers, s) && GateOk(s)
    ensures s.threads[0] == Claimed(a, 0, 0) && forall i :: 1 <= i < producers ==> s.threads[i].Idle?
    ensures |s.claims| == m + 1 && forall i :: 1 <= i <= m ==> s.claims[i] == b
    decreases m
  {
    hide Reached, GateOk;
    if m == 0 {
      var s0 := Start(n, blank, producers);
      ReachStart(n, blank, producers);
      StartGate(n, blank, producers);
      ReachClaim(n, blank, producers, s0, 0, a);
      Remainder(0, 0, 0, n);
      s := Claiming(s0, 0, a);
    } else {
      var s0 := Overtake(n, blank, a, b, producers, m - 1);
      ReachCount(n, blank, producers, s0, 1, b);
      var s1 := CountLoaded(s0, 1, b);
      ReachDone(n, blank, producers, s1, 1);
      s := At(s1, 1, Idle).(active := if s1.threads[1].elements < n then s1.active + 1 else s1.active);
    }
  }

  /** With two or more producers an overtaken one can leave an older signal behind as the newest. */
  lemma OvertakenIsWrong<V(!new)>(n: nat, blank: V, a: V, b: V, producers: nat)
    requires IsContext(n) && 2 <= producers && a != b
    ensures exists actions: seq<Action<V>> ::
              var s := Run(n, blank, producers, actions, |actions|); AtRest(s) && !PeeksRight(s)
  {
    var s := Overtaken(n, blank, a, b, producers);
    var actions: seq<Action<V>> :| Run(n, blank, producers, actions, |actions|) == s;
  }

  lemma Overtaken<V(!new)>(n: nat, blank: V, a: V, b: V, producers: nat) returns (s: State<V>)
    requires IsContext(n) && 2 <= producers && a != b
    ensures Reached(n, blank, producers, s) && AtRest(s) && !PeeksRight(s)
  {
    hide Reached, PeekIndex, Gate;
    var s0 := Overtake(n, blank, a, b, producers, n);
    ReachNext(n, blank, producers, s0, Advance(0));
    var s1 := Next(s0, Advance(0));
    ReachNext(n, blank, producers, s1, Advance(0));
    var s2 := Next(s1, Advance(0));
    ReachNext(n, blank, producers, s2, Advance(0));
    s := Next(s2, Advance(0));
    PeekSlot(s, 0);
    Remainder(n, 1, 0, n);
    assert s.ring[0] == a && s.claims[n] == b;
    assert !PeeksBack(s, 0);
  }

  /** At rest all runs read back what was claimed if and only if there is at most one producer. */
  lemma PeeksRightIffAlone<V(!new)>(n: nat, blank: V, a: V, b: V, producers: nat)
    requires IsContext(n) && a != b
    ensures producers <= 1 <==>
            forall actions: seq<Action<V>>, k: nat :: k <= |actions| && AtRest(Run(n, blank, producers, actions, k)) ==>
              PeeksRight(Run(n, blank, producers, actions, k))
  {
    hide Run, PeeksRight, AtRest;
    if producers <= 1 {
      forall actions: seq<Action<V>>, k: nat | k <= |actions| && AtRest(Run(n, blank, producers, actions, k))
        ensures PeeksRight(Run(n, blank, producers, actions, k))
      {
        AlonePeeks(n, blank, producers, actions, k);
      }
    } else {
      OvertakenIsWrong(n, blank, a, b, producers);
      var actions: seq<Action<V>> :|
        && AtRest(Run(n, blank, producers, actions, |actions|))
        && !PeeksRight(Run(n, blank, producers, actions, |actions|));
    }
  }

  lemma AlonePeeks<V>(n: nat, blank: V, producers: nat, actions: seq<Action<V>>, k: nat)
    requires IsContext(n) && k <= |actions| && producers <= 1 && AtRest(Run(n, blank, producers, actions, k))
    ensures PeeksRight(Run(n, blank, producers, actions, k))
  {
    hide Run, PeekIndex;
    AloneRun(n, blank, producers, actions, k);
    var s := Run(n, blank, producers, actions, k);
    forall back: nat | back < |s.claims| && back < n && back < TWO_64
      ensures PeeksBack(s, back)
    {
      PeeksHistory(n, blank, producers, actions, k, back);
    }
  }

  // ---------------------------------------------------------------- the ring object, called in turn

  /** The newest signals, as many as the ring has slots, are in their slots. */
  ghost predicate HoldsNewest<V>(ring: seq<V>, signals: seq<V>) {
    0 < |ring| && forall t :: 0 <= t < |signals| <= t + |ring| ==> ring[t % |ring|] == signals[t]
  }

  lemma HoldsMore<V>(ring: seq<V>, signals: seq<V>, input: V)
    requires HoldsNewest(ring, signals)
    ensures HoldsNewest(ring[|signals| % |ring| := input], signals + [input])
  {
    var m, n := |signals|, |ring|;
    forall t | 0 <= t < m + 1 <= t + n
      ensures ring[m % n := input][t % n] == (signals + [input])[t]
    {
      if t < m {
        SlotsDiffer(t, m, n);
      }
    }
  }

  /** In a full ring the slot after the newest signal holds the oldest one. */
  lemma OldestNext<V>(ring: seq<V>, signals: seq<V>, index: nat)
    requires HoldsNewest(ring, signals) && |signals| >= |ring|
    requires index == (|signals| - 1) % |ring|
    ensures ring[(index + 1) % |ring|] == signals[|signals| - |ring|]
  {
    var m, n := |signals|, |ring|;
    AddModulo(m - 1, 1, n);
    SameClass(m, m - n, 1, n);
    assert ring[(m - n) % n] == signals[m - n];
  }

  class SimdRingBuffer<V> {
    const n: nat
    const ring: array<V>
    var gate: nat
    var active: nat
    ghost var signals: seq<V>

    /** The newest `n` signals are in their slots. */
    ghost predicate Valid()
      reads this, ring
    {
      && IsContext(n) && ring.Length == n
      && gate == Gate(|signals| % TWO_32, |signals| % n)
      && active == (if |signals| < n then |signals| else n)
      && HoldsNewest(ring[..], signals)
    }

    constructor (size: nat, blank: V)
      requires IsContext(size)
      ensures Valid() && fresh(ring) && n == size && signals == []
    {
      n, gate, active, signals := size, 0, 0, [];
      ring := new V[size](_ => blank);
      Remainder(0, 0, 0, size);
    }

    /** Nothing comes back until the ring is full; from then on each call returns the oldest signal
        that is still held. */
    method ProcessSignal(input: V) returns (out: Option<V>)
      requires Valid()
      modifies this, ring
      ensures Valid() && signals == old(signals) + [input]
      ensures out == if |signals| <= n then None else Some(signals[|signals| - n])
    {
      ghost var s := State(gate, ring[..], active, [], signals, false);
      Packed(s);
      BumpedOk(s);
      hide Gate, IndexOf, VersionOf, Bumped, HoldsNewest;
      var index := IndexOf(gate);
      gate := Bumped(gate, n);
      ring[index] := input;
      var elements := active;
      if elements < n {
        active := active + 1;
      }
      HoldsMore(s.ring, signals, input);
      signals := signals + [input];
      assert ring[..] == s.ring[index := input];
      if elements >= n {
        OldestNext(ring[..], signals, index);
        return Some(ring[(index + 1) % n]);
      }
      return None;
    }

    /** The signal `back` steps before the newest one, if the ring still holds it. */
    method PeekHistorical(back: nat) returns (v: V)
      requires Valid() && back < TWO_64
      ensures v in ring[..]
      ensures back < |signals| && back < n ==> v == signals[|signals| - 1 - back]
    {
      v := ring[PeekIndex(gate, back, n)];
      if back < |signals| && back < n {
        PeekSlot(State(gate, ring[..], active, [], signals, false), back);
        assert ring[..][(|signals| - 1 - back) % n] == signals[|signals| - 1 - back];
      }
    }
  }
}
