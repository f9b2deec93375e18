/** The hybrid logical clock of the causal mesh (include/slabflux/cluster/causal_mesh.hpp:88-163).

    Calls draw tokens one after another; the time stamp counter is an input and may stall or go
    backwards. `draws` and `stalls` only record the run; no step depends on them. */
module CausalClock {
  import opened Modular
  import opened Words

  const TWO_48: nat := 0x1_0000_0000_0000
  const SCRAMBLE: nat := 0xA5A5

  datatype Action = Bind(peer: nat) | Replicate(tsc: nat, peer: nat) | Blast(tsc: nat)

  /** One drawn token: the reading, the caller, whether the counter had not moved on, the tick and the
      total of the increments before it in that tick. */
  datatype Draw = Draw(tsc: nat, replicate: bool, stalled: bool, tick: nat, total: nat, token: nat)

  datatype State = State(last: nat, logical: nat, peers: seq<bool>, draws: seq<Draw>, total: nat, stalls: nat)

  function Start(maxPeers: nat): State { State(0, 0, seq(maxPeers, i => false), [], 0, 0) }

  /** A 64-bit word shifted left by sixteen. */
  function Shifted(x: nat): nat { x * TWO_16 % TWO_64 }

  /** What a stalled call puts below the tick. */
  function Low(replicate: bool, logical: nat): (w: nat)
    ensures w < TWO_16
  {
    if replicate then Xor(logical, SCRAMBLE) % TWO_16 else logical % TWO_16
  }

  /** How far a stalled call moves the sequence. */
  function Increment(replicate: bool, tsc: nat): (d: nat)
    ensures 1 <= d <= 16
  {
    if replicate then tsc % 16 + 1 else 1
  }

  function Drawn(s: State, replicate: bool, tsc: nat): State {
    if tsc > s.last then
      s.(last := tsc, logical := 0, total := 0, stalls := 0,
         draws := s.draws + [Draw(tsc, replicate, false, tsc, 0, Shifted(tsc))])
    else
      var token := Shifted(s.last) + Low(replicate, s.logical);
      s.(logical := (s.logical + Increment(replicate, tsc)) % TWO_32,
         total := s.total + Increment(replicate, tsc), stalls := s.stalls + 1,
         draws := s.draws + [Draw(tsc, replicate, true, s.last, s.total, token)])
  }

  /** Replication to a peer that is out of range or not bound draws nothing. */
  function Next(s: State, a: Action): State {
    match a
    case Bind(p) => if p < |s.peers| then s.(peers := s.peers[p := true]) else s
    case Replicate(tsc, p) => if p >= |s.peers| || !s.peers[p] then s else Drawn(s, true, tsc)
    case Blast(tsc) => Drawn(s, false, tsc)
  }

  function Run(maxPeers: nat, actions: seq<Action>, n: nat): State
    requires n <= |actions|
  {
    if n == 0 then Start(maxPeers) else Next(Run(maxPeers, actions, n - 1), actions[n - 1])
  }

  /** All readings leave sixteen bits free. */
  predicate ShortReadings(actions: seq<Action>) {
    forall i :: 0 <= i < |actions| && !actions[i].Bind? ==> actions[i].tsc < TWO_48
  }

  // ---------------------------------------------------------------- the tick in the token

  /** The largest of the first `k` readings, or zero. */
  function MaxReading(draws: seq<Draw>, k: nat): (m: nat)
    requires k <= |draws|
    ensures forall i :: 0 <= i < k ==> draws[i].tsc <= m
    ensures m == 0 || exists i :: 0 <= i < k && draws[i].tsc == m
  {
    if k == 0 then 0
    else var m := MaxReading(draws, k - 1); if draws[k - 1].tsc > m then draws[k - 1].tsc else m
  }

  lemma {:induction false} MaxSame(a: seq<Draw>, b: seq<Draw>, k: nat)
    requires k <= |a| && k <= |b| && forall i :: 0 <= i < k ==> a[i] == b[i]
    ensures MaxReading(a, k) == MaxReading(b, k)
  {
    if k == 0 {
    } else {
      MaxSame(a, b, k - 1);
    }
  }

  /** Draw `i` in terms of the draws before it. */
  ghost predicate DrawOk(draws: seq<Draw>, i: nat)
    requires i < |draws|
  {
    var d := draws[i];
    && d.tick == MaxReading(draws, i + 1) < TWO_48
    && d.token == d.tick * TWO_16 + (if d.stalled then Low(d.replicate, d.total % TWO_32) else 0)
    && (d.stalled <==> d.tsc <= MaxReading(draws, i))
    && (d.stalled ==> d.total == TotalBefore(draws, i) && d.tick == MaxReading(draws, i))
    && (!d.stalled ==> d.total == 0)
  }

  /** The increments made in the tick up to the first `i` draws. */
  function TotalBefore(draws: seq<Draw>, i: nat): nat
    requires i <= |draws|
  {
    if i == 0 || !draws[i - 1].stalled then 0
    else draws[i - 1].total + Increment(draws[i - 1].replicate, draws[i - 1].tsc)
  }

  ghost predicate Inv(s: State) {
    && s.last == MaxReading(s.draws, |s.draws|) < TWO_48
    && s.total == TotalBefore(s.draws, |s.draws|)
    && s.logical == s.total % TWO_32
    && (forall i :: 0 <= i < |s.draws| ==> DrawOk(s.draws, i))
  }

  lemma DrawOkSame(a: seq<Draw>, b: seq<Draw>, i: nat)
    requires i < |a| <= |b| && DrawOk(a, i) && a == b[..|a|]
    ensures DrawOk(b, i)
  {
    hide MaxReading, Low;
    MaxSame(a, b, i + 1);
    MaxSame(a, b, i);
  }

  lemma ShiftExact(x: nat)
    requires x < TWO_48
    ensures Shifted(x) == x * TWO_16
  {
  }

  lemma DrawKeeps(s: State, replicate: bool, tsc: nat)
    requires Inv(s) && tsc < TWO_48
    ensures Inv(Drawn(s, replicate, tsc))
  {
    hide DrawOk, Drawn, MaxReading, TotalBefore;
    FieldsMove(s, replicate, tsc);
    LastDrawOk(s, replicate, tsc);
    var draws, n := Drawn(s, replicate, tsc).draws, |s.draws|;
    forall i | 0 <= i < n
      ensures DrawOk(draws, i)
    {
      DrawOkSame(s.draws, draws, i);
    }
  }

  lemma FieldsMove(s: State, replicate: bool, tsc: nat)
    requires Inv(s) && tsc < TWO_48
    ensures var s' := Drawn(s, replicate, tsc);
            && |s'.draws| == |s.draws| + 1 && s'.draws[..|s.draws|] == s.draws
            && s'.last == MaxReading(s'.draws, |s'.draws|) < TWO_48
            && s'.total == TotalBefore(s'.draws, |s'.draws|)
            && s'.logical == s'.total % TWO_32
  {
    hide Low, DrawOk, Shifted, MaxReading, Increment;
    var s' := Drawn(s, replicate, tsc);
    MaxSame(s.draws, s'.draws, |s.draws|);
    MaxStep(s'.draws, |s'.draws|);
    AddModulo(s.total, Increment(replicate, tsc), TWO_32);
  }

  lemma MaxStep(draws: seq<Draw>, k: nat)
    requires 0 < k <= |draws|
    ensures MaxReading(draws, k) ==
            var m := MaxReading(draws, k - 1); if draws[k - 1].tsc > m then draws[k - 1].tsc else m
  {
  }

  lemma LastDrawOk(s: State, replicate: bool, tsc: nat)
    requires Inv(s) && tsc < TWO_48
    ensures DrawOk(Drawn(s, replicate, tsc).draws, |s.draws|)
  {
    hide Low, Shifted;
    var s', n := Drawn(s, replicate, tsc), |s.draws|;
    MaxSame(s.draws, s'.draws, n);
    ShiftExact(s.last);
    ShiftExact(tsc);
  }

  lemma {:induction false} RunKeeps(maxPeers: nat, actions: seq<Action>, n: nat)
    requires n <= |actions| && ShortReadings(actions)
    ensures Inv(Run(maxPeers, actions, n))
  {
    hide Inv, Drawn;
    if n == 0 {
      StartOk(maxPeers);
    } else {
      RunKeeps(maxPeers, actions, n - 1);
      var s, a := Run(maxPeers, actions, n - 1), actions[n - 1];
      if a.Bind? {
        BindKeeps(s, a.peer);
      } else {
        DrawKeeps(s, a.Replicate?, a.tsc);
      }
    }
  }

  lemma StartOk(maxPeers: nat)
    ensures Inv(Start(maxPeers))
  {
  }

  lemma BindKeeps(s: State, p: nat)
    requires Inv(s)
    ensures Inv(Next(s, Bind(p)))
  {
  }

  /** Whatever the mix of calls and even when the counter goes backwards, every token shifted right by
      sixteen is the largest reading so far, and no token needs more than 64 bits. */
  lemma TokenCarriesMaximum(maxPeers: nat, actions: seq<Action>, n: nat, i: nat)
    requires n <= |actions| && ShortReadings(actions)
    requires i < |Run(maxPeers, actions, n).draws|
    ensures var draws := Run(maxPeers, actions, n).draws;
            draws[i].token / TWO_16 == MaxReading(draws, i + 1) && draws[i].token < TWO_64
  {
    hide Run, MaxReading, Low;
    RunKeeps(maxPeers, actions, n);
    assert DrawOk(Run(maxPeers, actions, n).draws, i);
  }

  // ---------------------------------------------------------------- stalled replications

  /** The scrambled low bits determine the low bits. */
  lemma {:induction false} XorLow(a: nat, b: nat, k: nat, n: nat)
    requires Xor(a, k) % Pow2(n) == Xor(b, k) % Pow2(n)
    ensures a % Pow2(n) == b % Pow2(n)
    decreases n
  {
    if n == 0 {
    } else {
      hide Xor;
      var p := Pow2(n - 1);
      XorHalves(a, k);
      XorHalves(b, k);
      ModHalves(Xor(a, k), p);
      ModHalves(Xor(b, k), p);
      XorLow(a / 2, b / 2, k / 2, n - 1);
      ModHalves(a, p);
      ModHalves(b, p);
    }
  }

  lemma ModHalves(x: nat, p: nat)
    requires 0 < p
    ensures x % (2 * p) == 2 * (x / 2 % p) + x % 2
  {
    var q := x / 2 / p;
    assert x / 2 == q * p + x / 2 % p;
    assert q * p * 2 == q * (2 * p);
    Remainder(x, q, 2 * (x / 2 % p) + x % 2, 2 * p);
  }

  lemma LowDiffers(x: nat, y: nat)
    requires x < y < x + TWO_16
    ensures Low(true, x % TWO_32) != Low(true, y % TWO_32)
  {
    hide Xor, Pow2;
    Pow16();
    SlotsDiffer(x, y, TWO_16);
    Nested(x, TWO_32, TWO_16);
    Nested(y, TWO_32, TWO_16);
    if Low(true, x % TWO_32) == Low(true, y % TWO_32) {
      XorLow(x % TWO_32, y % TWO_32, SCRAMBLE, 16);
    }
  }

  predicate StalledReplications(draws: seq<Draw>, i: nat, j: nat)
    requires i <= j < |draws|
  {
    forall k :: i <= k <= j ==> draws[k].stalled && draws[k].replicate
  }

  lemma {:induction false} TotalsGrow(s: State, i: nat, j: nat)
    requires Inv(s) && i <= j < |s.draws| && StalledReplications(s.draws, i, j)
    ensures s.draws[i].total + (j - i) <= s.draws[j].total <= s.draws[i].total + 16 * (j - i)
    ensures s.draws[j].tick == s.draws[i].tick
  {
    hide Low, MaxReading, Increment;
    if i == j {
    } else {
      TotalsGrow(s, i, j - 1);
      assert DrawOk(s.draws, j) && DrawOk(s.draws, j - 1);
    }
  }

  /** Up to 4096 consecutive stalled replications get pairwise distinct tokens. */
  lemma StalledDistinct(maxPeers: nat, actions: seq<Action>, n: nat, i: nat, j: nat)
    requires n <= |actions| && ShortReadings(actions)
    requires i < j < |Run(maxPeers, actions, n).draws| && j - i < 4096
    requires StalledReplications(Run(maxPeers, actions, n).draws, i, j)
    ensures Run(maxPeers, actions, n).draws[i].token != Run(maxPeers, actions, n).draws[j].token
  {
    hide Run, Low, MaxReading;
    RunKeeps(maxPeers, actions, n);
    var s := Run(maxPeers, actions, n);
    TotalsGrow(s, i, j);
    assert DrawOk(s.draws, i) && DrawOk(s.draws, j);
    LowDiffers(s.draws[i].total, s.draws[j].total);
  }

  /** One binding, one tick, then stalled replications that all move the sequence by sixteen. */
  function Stuck(n: nat): seq<Action> {
    [Bind(0)] + seq(n, i => Replicate(15, 0))
  }

  /** After the tick and `k - 1` stalled replications. */
  predicate StuckState(s: State, k: nat) {
    && 1 <= k
    && s.last == 15 && s.peers == [true] && |s.draws| == k && s.total == 16 * (k - 1)
    && s.logical == s.total % TWO_32
    && s.draws[k - 1].token == 15 * TWO_16 + (if k == 1 then 0 else Low(true, 16 * (k - 2) % TWO_32))
  }

  lemma StuckStep(s: State, k: nat)
    requires StuckState(s, k)
    ensures var s' := Next(s, Replicate(15, 0)); StuckState(s', k + 1) && s'.draws[..k] == s.draws
  {
    hide Low;
    ShiftExact(15);
    AddModulo(16 * (k - 1), 16, TWO_32);
  }

  lemma {:induction false} StuckRun(n: nat, k: nat)
    requires 1 <= k <= n
    ensures StuckState(Run(1, Stuck(n), k + 1), k)
    ensures k > 1 ==>
              && |Run(1, Stuck(n), k).draws| == k - 1
              && Run(1, Stuck(n), k).draws == Run(1, Stuck(n), k + 1).draws[..k - 1]
  {
    hide Low, Next, StuckState;
    var a := Stuck(n);
    if k == 1 {
      StuckStart(n);
    } else {
      StuckRun(n, k - 1);
      StuckStep(Run(1, a, k), k - 1);
      assert a[k] == Replicate(15, 0);
      assert StuckState(Run(1, a, k), k - 1) ==> |Run(1, a, k).draws| == k - 1 by { StuckLength(Run(1, a, k), k - 1); }
    }
  }

  lemma StuckLength(s: State, k: nat)
    ensures StuckState(s, k) ==> |s.draws| == k
  {
  }

  lemma StuckStart(n: nat)
    requires 1 <= n
    ensures StuckState(Run(1, Stuck(n), 2), 1)
  {
    hide Low;
    ShiftExact(15);
    var a := Stuck(n);
    assert Run(1, a, 1) == State(0, 0, [true], [], 0, 0);
    assert Run(1, a, 2) == Next(Run(1, a, 1), a[1]);
  }

  lemma {:induction false} StuckToken(n: nat, k: nat, m: nat)
    requires 2 <= k <= m <= n
    ensures |Run(1, Stuck(n), m + 1).draws| == m
    ensures Run(1, Stuck(n), m + 1).draws[k - 1].token == 15 * TWO_16 + Low(true, 16 * (k - 2) % TWO_32)
  {
    hide Low, Run, Stuck;
    StuckRun(n, m);
    if k == m {
    } else {
      StuckToken(n, k, m - 1);
    }
  }

  /** The bound cannot be raised: the first and the 4097th of 4097 stalled replications can get the
      same token. */
  lemma FourThousandNinetySevenCollide()
    ensures var draws := Run(1, Stuck(4098), 4099).draws;
            |draws| == 4098 && draws[1].token == draws[4097].token
  {
    hide Run, Stuck, Low;
    StuckToken(4098, 2, 4098);
    StuckToken(4098, 4098, 4098);
    assert Low(true, 0) == Low(true, 65536) by { LapAround(); }
  }

  lemma LapAround()
    ensures Low(true, 0) == Low(true, 65536)
  {
    hide Xor, Pow2;
    Pow16();
    XorLowConverse(0, 65536, SCRAMBLE, 16);
  }

  lemma {:induction false} XorLowConverse(a: nat, b: nat, k: nat, n: nat)
    requires a % Pow2(n) == b % Pow2(n)
    ensures Xor(a, k) % Pow2(n) == Xor(b, k) % Pow2(n)
    decreases n
  {
    if n == 0 {
    } else {
      hide Xor;
      var p := Pow2(n - 1);
      XorHalves(a, k);
      XorHalves(b, k);
      ModHalves(Xor(a, k), p);
      ModHalves(Xor(b, k), p);
      ModHalves(a, p);
      ModHalves(b, p);
      XorLowConverse(a / 2, b / 2, k / 2, n - 1);
    }
  }

  // ---------------------------------------------------------------- the order of tokens

  predicate Nondecreasing(draws: seq<Draw>) {
    forall i, j :: 0 <= i < j < |draws| ==> draws[i].token <= draws[j].token
  }

  function LowOf(d: Draw): nat { Low(d.replicate, d.total % TWO_32) }

  /** Successive stalled draws come with sequence totals whose low bits, scrambled for replications, do not
      fall. */
  predicate LowsOrdered(draws: seq<Draw>) {
    forall i :: 0 <= i < |draws| - 1 && draws[i].stalled && draws[i + 1].stalled ==>
                  LowOf(draws[i]) <= LowOf(draws[i + 1])
  }

  lemma NextOrdered(s: State, i: nat)
    requires Inv(s) && i + 1 < |s.draws|
    ensures s.draws[i].token <= s.draws[i + 1].token <==>
            (s.draws[i].stalled && s.draws[i + 1].stalled ==> LowOf(s.draws[i]) <= LowOf(s.draws[i + 1]))
  {
    hide Low;
    assert DrawOk(s.draws, i) && DrawOk(s.draws, i + 1);
    MaxStep(s.draws, i + 2);
  }

  lemma {:induction false} OrderedFrom(s: State, i: nat, j: nat)
    requires Inv(s) && i <= j < |s.draws| && LowsOrdered(s.draws)
    ensures s.draws[i].token <= s.draws[j].token
    decreases j - i
  {
    hide Low, DrawOk, MaxReading, TotalBefore;
    if i == j {
    } else {
      OrderedFrom(s, i, j - 1);
      NextOrdered(s, j - 1);
    }
  }

  /** Whatever the mix of calls, tokens come out in order if and only if within no tick the low bits of a
      stalled call are below those of the stalled call before it. */
  lemma TokensOrdered(maxPeers: nat, actions: seq<Action>, n: nat)
    requires n <= |actions| && ShortReadings(actions)
    ensures Nondecreasing(Run(maxPeers, actions, n).draws) <==> LowsOrdered(Run(maxPeers, actions, n).draws)
  {
    hide Run, Inv, LowOf;
    RunKeeps(maxPeers, actions, n);
    var s := Run(maxPeers, actions, n);
    if LowsOrdered(s.draws) {
      forall i, j | 0 <= i < j < |s.draws|
        ensures s.draws[i].token <= s.draws[j].token
      {
        OrderedFrom(s, i, j);
      }
    } else {
      var i :| 0 <= i < |s.draws| - 1 && s.draws[i].stalled && s.draws[i + 1].stalled
               && LowOf(s.draws[i]) > LowOf(s.draws[i + 1]);
      NextOrdered(s, i);
    }
  }

  /** The second stalled replication of a tick is ordered behind the first if and only if the reading of
      the first, modulo sixteen, is none of 0, 3, 4, 5 and 6. */
  lemma SecondReplicationOrdered(maxPeers: nat, actions: seq<Action>, n: nat, i: nat)
    requires n <= |actions| && ShortReadings(actions)
    requires i + 1 < |Run(maxPeers, actions, n).draws|
    requires var draws := Run(maxPeers, actions, n).draws;
             && StalledReplications(draws, i, i + 1)
             && (i == 0 || !draws[i - 1].stalled)
    ensures var draws := Run(maxPeers, actions, n).draws;
            draws[i].token <= draws[i + 1].token <==> draws[i].tsc % 16 !in {0, 3, 4, 5, 6}
  {
    hide Run, Low, MaxReading;
    RunKeeps(maxPeers, actions, n);
    var s := Run(maxPeers, actions, n);
    NextOrdered(s, i);
    assert DrawOk(s.draws, i) && DrawOk(s.draws, i + 1);
    ScrambledOrder(s.draws[i].tsc % 16);
  }

  /** The scrambled sequence after one increment, against the scrambled zero. */
  lemma ScrambledOrder(r: nat)
    requires r < 16
    ensures Low(true, 0) <= Low(true, r + 1) <==> r !in {0, 3, 4, 5, 6}
  {
    hide Xor;
    ScrambledSmall(0);
    ScrambledSmall(r + 1);
  }

  /** Exclusive or of the low four bits with 5 flips the bits worth 1 and 4. */
  function Flipped(x: nat): int
    requires x < 16
  {
    x + 5 - 2 * (x % 2 + 4 * (x / 4 % 2))
  }

  lemma XorBit(x: nat, k: nat, a: nat, b: nat)
    requires a < 2 && b < 2
    ensures Xor(2 * x + a, 2 * k + b) == 2 * Xor(x, k) + if a == b then 0 else 1
  {
    hide Xor;
    XorHalves(2 * x + a, 2 * k + b);
    assert (2 * x + a) / 2 == x && (2 * k + b) / 2 == k;
  }

  lemma XorFive(h: nat, a: nat, b: nat, c: nat, d: nat, m: nat)
    requires a < 2 && b < 2 && c < 2 && d < 2
    ensures Xor(16 * h + 8 * d + 4 * c + 2 * b + a, 16 * m + 5)
         == 16 * Xor(h, m) + 8 * d + 4 * (1 - c) + 2 * b + (1 - a)
  {
    hide Xor;
    XorBit(h, m, d, 0);
    XorBit(2 * h + d, 2 * m, c, 1);
    XorBit(4 * h + 2 * d + c, 4 * m + 1, b, 0);
    XorBit(8 * h + 4 * d + 2 * c + b, 8 * m + 2, a, 1);
  }

  lemma FlippedIs(x: nat, a: nat, b: nat, c: nat, d: nat)
    requires a < 2 && b < 2 && c < 2 && d < 2 && x == 8 * d + 4 * c + 2 * b + a
    ensures Flipped(x) == 8 * d + 4 * (1 - c) + 2 * b + (1 - a)
  {
  }

  lemma ScrambledSmall(x: nat)
    requires x <= 16
    ensures Low(true, x) == if x == 16 then 0xA5B5 else 0xA5A0 + Flipped(x)
  {
    hide Xor;
    if x == 16 {
      XorFive(1, 0, 0, 0, 0, 0xA5A);
      XorBit(0, 0x52D, 1, 0);
      XorNothing(0x52D);
    } else {
      var a, b, c, d := Digits(x);
      XorFive(0, a, b, c, d, 0xA5A);
      FlippedIs(x, a, b, c, d);
      XorNothing(0xA5A);
    }
  }

  lemma Digits(x: nat) returns (a: nat, b: nat, c: nat, d: nat)
    requires x < 16
    ensures a < 2 && b < 2 && c < 2 && d < 2 && x == 8 * d + 4 * c + 2 * b + a
  {
    a, b, c, d := x % 2, x / 2 % 2, x / 4 % 2, x / 8;
  }

  lemma XorNothing(k: nat)
    ensures Xor(0, k) == k
  {
  }

  /** Replications are not ordered within a tick: the second stalled one can get a smaller token. */
  lemma ReplicationsUnordered()
    ensures var a := [Bind(0), Replicate(16, 0), Replicate(16, 0), Replicate(16, 0)];
            var draws := Run(1, a, 4).draws;
            |draws| == 3 && draws[2].token < draws[1].token
  {
    hide Xor, Low, Shifted;
    var a := [Bind(0), Replicate(16, 0), Replicate(16, 0), Replicate(16, 0)];
    var first := Draw(16, true, false, 16, 0, Shifted(16));
    var second := Draw(16, true, true, 16, 0, Shifted(16) + Low(true, 0));
    assert Run(1, a, 1) == State(0, 0, [true], [], 0, 0);
    assert Run(1, a, 2) == State(16, 0, [true], [first], 0, 0);
    assert Run(1, a, 3) == State(16, 1, [true], [first, second], 1, 1);
    assert Run(1, a, 4) == Drawn(Run(1, a, 3), true, 16);
    ScrambledSmall(0);
    ScrambledSmall(1);
  }

  // ---------------------------------------------------------------- broadcasts

  predicate BroadcastOnly(actions: seq<Action>) {
    forall i :: 0 <= i < |actions| ==> !actions[i].Replicate?
  }

  /** In a broadcast-only run the sequence counts the stalled calls of the tick. */
  ghost predicate Broadcasting(s: State) {
    && Inv(s)
    && s.total == s.stalls
    && (s.draws == [] ==> s.stalls == 0 && s.last == 0)
    && (s.draws != [] ==>
          s.draws[|s.draws| - 1].token == s.last * TWO_16 + (if s.stalls == 0 then 0 else (s.stalls - 1) % TWO_16))
  }

  lemma BlastKeeps(s: State, tsc: nat)
    requires Broadcasting(s) && tsc < TWO_48
    ensures Broadcasting(Drawn(s, false, tsc))
  {
    hide Inv;
    DrawKeeps(s, false, tsc);
    BlastToken(s, tsc);
  }

  lemma BlastToken(s: State, tsc: nat)
    requires Inv(s) && s.total == s.stalls && tsc < TWO_48
    ensures var draws := Drawn(s, false, tsc).draws;
            draws[|s.draws|].token == if tsc > s.last then tsc * TWO_16 else s.last * TWO_16 + s.stalls % TWO_16
  {
    ShiftExact(tsc);
    ShiftExact(s.last);
    Nested(s.total, TWO_32, TWO_16);
  }

  /** Whether any tick so far has had more stalled calls than the low bits can count. */
  predicate Overrun(maxPeers: nat, actions: seq<Action>, n: nat)
    requires n <= |actions|
  {
    exists m :: 0 <= m <= n && Run(maxPeers, actions, m).stalls > TWO_16
  }

  lemma {:induction false} BroadcastRun(maxPeers: nat, actions: seq<Action>, n: nat)
    requires n <= |actions| && ShortReadings(actions) && BroadcastOnly(actions)
    ensures Broadcasting(Run(maxPeers, actions, n))
  {
    hide Inv, Drawn, Broadcasting;
    if n == 0 {
      BroadcastStart(maxPeers);
    } else {
      BroadcastRun(maxPeers, actions, n - 1);
      var s, a := Run(maxPeers, actions, n - 1), actions[n - 1];
      if a.Bind? {
        BroadcastBind(s, a.peer);
      } else {
        BlastKeeps(s, a.tsc);
      }
    }
  }

  lemma BroadcastStart(maxPeers: nat)
    ensures Broadcasting(Start(maxPeers))
  {
  }

  lemma BroadcastBind(s: State, p: nat)
    requires Broadcasting(s)
    ensures Broadcasting(Next(s, Bind(p)))
  {
    BindKeeps(s, p);
  }

  /** A broadcast is ordered behind the one before it unless it is the stalled call number 65537,
      131073, and so on, of its tick. */
  lemma BlastOrdered(s: State, tsc: nat)
    requires Broadcasting(s) && s.draws != [] && tsc < TWO_48
    requires s.stalls <= TWO_16
    ensures var draws := Drawn(s, false, tsc).draws;
            draws[|s.draws| - 1].token <= draws[|s.draws|].token <==> Drawn(s, false, tsc).stalls <= TWO_16
  {
    hide Inv;
    BlastToken(s, tsc);
  }

  /** Broadcast-only runs give nondecreasing tokens if and only if no tick has had more than 65536
      stalled calls. */
  lemma {:induction false} BroadcastsOrdered(maxPeers: nat, actions: seq<Action>, n: nat)
    requires n <= |actions| && ShortReadings(actions) && BroadcastOnly(actions)
    ensures Nondecreasing(Run(maxPeers, actions, n).draws) <==> !Overrun(maxPeers, actions, n)
  {
    hide Broadcasting, Inv;
    if n == 0 {
    } else {
      BroadcastsOrdered(maxPeers, actions, n - 1);
      BroadcastRun(maxPeers, actions, n - 1);
      var s, s', a := Run(maxPeers, actions, n - 1), Run(maxPeers, actions, n), actions[n - 1];
      OverrunStep(maxPeers, actions, n);
      if a.Blast? {
        BlastStep(s, a.tsc, Overrun(maxPeers, actions, n - 1));
      }
    }
  }

  lemma OverrunStep(maxPeers: nat, actions: seq<Action>, n: nat)
    requires 0 < n <= |actions|
    ensures Overrun(maxPeers, actions, n) <==>
            Overrun(maxPeers, actions, n - 1) || Run(maxPeers, actions, n).stalls > TWO_16
    ensures Run(maxPeers, actions, n - 1).stalls > TWO_16 ==> Overrun(maxPeers, actions, n - 1)
  {
    hide Run;
    if Overrun(maxPeers, actions, n) {
      var m :| 0 <= m <= n && Run(maxPeers, actions, m).stalls > TWO_16;
      assert m < n || m == n;
    }
  }

  lemma BlastStep(s: State, tsc: nat, over: bool)
    requires Broadcasting(s) && tsc < TWO_48
    requires Nondecreasing(s.draws) <==> !over
    requires s.stalls > TWO_16 ==> over
    ensures Nondecreasing(Drawn(s, false, tsc).draws) <==> !(over || Drawn(s, false, tsc).stalls > TWO_16)
  {
    hide Inv;
    var s', n := Drawn(s, false, tsc), |s.draws|;
    assert s'.draws[..n] == s.draws;
    assert forall i :: 0 <= i < n ==> s'.draws[i] == s.draws[i];
    if over {
      var i, j :| 0 <= i < j < n && s.draws[i].token > s.draws[j].token;
      assert s'.draws[i].token > s'.draws[j].token;
    } else if n > 0 {
      BlastOrdered(s, tsc);
    }
  }

  // ---------------------------------------------------------------- distinct broadcasts

  predicate Distinct(draws: seq<Draw>) {
    forall i, j :: 0 <= i < j < |draws| ==> draws[i].token != draws[j].token
  }

  /** Every reading is above all before it, but for at most 65536 zero readings at the start. */
  predicate Rising(draws: seq<Draw>) {
    forall i :: 0 <= i < |draws| ==>
                  draws[i].tsc > MaxReading(draws, i) || (MaxReading(draws, i) == 0 && i < TWO_16)
  }

  predicate Broadcasts(draws: seq<Draw>) { forall i :: 0 <= i < |draws| ==> !draws[i].replicate }

  lemma {:induction false} RunBroadcasts(maxPeers: nat, actions: seq<Action>, n: nat)
    requires n <= |actions| && BroadcastOnly(actions)
    ensures Broadcasts(Run(maxPeers, actions, n).draws)
  {
    hide Low, Shifted, Increment;
    if n == 0 {
    } else {
      RunBroadcasts(maxPeers, actions, n - 1);
    }
  }

  /** The first stalled broadcast behind the draw that opened a tick repeats that draw's token. */
  lemma FirstStalledRepeats(maxPeers: nat, actions: seq<Action>, n: nat, i: nat)
    requires n <= |actions| && ShortReadings(actions)
    requires 0 < i < |Run(maxPeers, actions, n).draws|
    requires var draws := Run(maxPeers, actions, n).draws;
             draws[i].stalled && !draws[i].replicate && !draws[i - 1].stalled
    ensures Run(maxPeers, actions, n).draws[i].token == Run(maxPeers, actions, n).draws[i - 1].token
  {
    hide Run, MaxReading;
    RunKeeps(maxPeers, actions, n);
    var s := Run(maxPeers, actions, n);
    assert DrawOk(s.draws, i) && DrawOk(s.draws, i - 1);
  }

  /** A stalled broadcast in a tick that a draw opened: two tokens are the same. */
  lemma {:induction false} StalledRepeats(s: State, i: nat)
    requires Inv(s) && Broadcasts(s.draws) && i < |s.draws| && s.draws[i].stalled && MaxReading(s.draws, i) > 0
    ensures !Distinct(s.draws)
  {
    hide MaxReading;
    assert i > 0 by { NoReading(s.draws); }
    assert DrawOk(s.draws, i) && DrawOk(s.draws, i - 1);
    if !s.draws[i - 1].stalled {
      assert s.draws[i - 1].token == s.draws[i].token;
    } else {
      StalledRepeats(s, i - 1);
    }
  }

  lemma NoReading(draws: seq<Draw>)
    ensures MaxReading(draws, 0) == 0
  {
  }

  /** As long as all readings are zero, every broadcast is stalled and its token counts the ones before. */
  lemma {:induction false} ZeroReadings(s: State, i: nat)
    requires Inv(s) && Broadcasts(s.draws) && i < |s.draws| && MaxReading(s.draws, i + 1) == 0
    ensures s.draws[i].stalled && s.draws[i].total == i && s.draws[i].token == i % TWO_16
  {
    assert DrawOk(s.draws, i);
    MaxStep(s.draws, i + 1);
    if i == 0 {
    } else {
      ZeroReadings(s, i - 1);
    }
    Nested(i, TWO_32, TWO_16);
  }

  lemma {:induction false} MaxGrows(draws: seq<Draw>, i: nat, j: nat)
    requires i <= j <= |draws|
    ensures MaxReading(draws, i) <= MaxReading(draws, j)
  {
    if i == j {
    } else {
      MaxGrows(draws, i, j - 1);
    }
  }

  lemma RisingDistinct(s: State, i: nat, j: nat)
    requires Inv(s) && Broadcasts(s.draws) && Rising(s.draws) && i < j < |s.draws|
    ensures s.draws[i].token != s.draws[j].token
  {
    hide MaxReading, Inv, Rising;
    if s.draws[j].tsc > MaxReading(s.draws, j) {
      OpenedPair(s, i, j);
    } else {
      ZeroPair(s, i, j);
    }
  }

  lemma ZeroPair(s: State, i: nat, j: nat)
    requires Inv(s) && Broadcasts(s.draws) && Rising(s.draws) && i < j < |s.draws|
    requires s.draws[j].tsc <= MaxReading(s.draws, j)
    ensures s.draws[i].token != s.draws[j].token
  {
    hide MaxReading, Inv, Rising, Broadcasts;
    RisingAt(s.draws, j);
    MaxStep(s.draws, j + 1);
    ZeroTokens(s, i, j);
  }

  lemma ZeroTokens(s: State, i: nat, j: nat)
    requires Inv(s) && Broadcasts(s.draws) && i < j < |s.draws| && j < TWO_16 && MaxReading(s.draws, j + 1) == 0
    ensures s.draws[i].token != s.draws[j].token
  {
    hide MaxReading, Inv, Broadcasts;
    MaxGrows(s.draws, i + 1, j + 1);
    ZeroReadings(s, i);
    ZeroReadings(s, j);
    SlotsDiffer(i, j, TWO_16);
  }

  lemma RisingAt(draws: seq<Draw>, j: nat)
    requires Rising(draws) && j < |draws|
    ensures draws[j].tsc > MaxReading(draws, j) || (MaxReading(draws, j) == 0 && j < TWO_16)
  {
  }

  lemma OpenedPair(s: State, i: nat, j: nat)
    requires Inv(s) && i < j < |s.draws| && s.draws[j].tsc > MaxReading(s.draws, j)
    ensures s.draws[i].token != s.draws[j].token
  {
    hide MaxReading, TotalBefore, Low;
    assert DrawOk(s.draws, i) && DrawOk(s.draws, j);
    MaxGrows(s.draws, i + 1, j);
    MaxStep(s.draws, j + 1);
    TicksDiffer(s.draws[i], s.draws[j]);
  }

  lemma TicksDiffer(d: Draw, e: Draw)
    requires d.tick < e.tick
    requires d.tick * TWO_16 <= d.token < (d.tick + 1) * TWO_16 && e.tick * TWO_16 <= e.token
    ensures d.token != e.token
  {
  }

  /** The tokens of a broadcast-only run are pairwise distinct if and only if every reading is above all
      before it, but for at most 65536 zero readings at the start. */
  lemma BroadcastsDistinct(maxPeers: nat, actions: seq<Action>, n: nat)
    requires n <= |actions| && ShortReadings(actions) && BroadcastOnly(actions)
    ensures Distinct(Run(maxPeers, actions, n).draws) <==> Rising(Run(maxPeers, actions, n).draws)
  {
    hide Run, MaxReading, Inv;
    RunKeeps(maxPeers, actions, n);
    RunBroadcasts(maxPeers, actions, n);
    var s := Run(maxPeers, actions, n);
    if Rising(s.draws) {
      forall i, j | 0 <= i < j < |s.draws|
        ensures s.draws[i].token != s.draws[j].token
      {
        RisingDistinct(s, i, j);
      }
    } else {
      NotRising(s);
    }
  }

  lemma NotRising(s: State)
    requires Inv(s) && Broadcasts(s.draws) && !Rising(s.draws)
    ensures !Distinct(s.draws)
  {
    hide MaxReading;
    var i :| 0 <= i < |s.draws| && s.draws[i].tsc <= MaxReading(s.draws, i)
             && (MaxReading(s.draws, i) > 0 || i >= TWO_16);
    assert DrawOk(s.draws, i);
    if MaxReading(s.draws, i) > 0 {
      StalledRepeats(s, i);
    } else {
      MaxStep(s.draws, i + 1);
      MaxGrows(s.draws, 1, i + 1);
      MaxGrows(s.draws, TWO_16 + 1, i + 1);
      ZeroReadings(s, 0);
      ZeroReadings(s, TWO_16);
      assert s.draws[0].token == s.draws[TWO_16].token;
    }
  }

  // ---------------------------------------------------------------- the router object

  datatype Token = NoToken | Token(value: nat)

  class CausalMeshRouter {
    const peers: array<bool>
    var lastTsc: nat
    var logicalSeq: nat

    /** The clock's state, with an empty record of the past. */
    ghost function View(): State
      reads this, peers
    {
      State(lastTsc, logicalSeq, peers[..], [], 0, 0)
    }

    constructor (maxPeers: nat)
      ensures fresh(peers) && View() == Start(maxPeers)
    {
      peers := new bool[maxPeers](_ => false);
      lastTsc, logicalSeq := 0, 0;
    }

    method BindPeer(peer: nat)
      modifies peers
      ensures View() == Next(old(View()), Bind(peer))
    {
      if peer < peers.Length {
        peers[peer] := true;
      }
    }

    /** The token stamped on the event, or none when the peer is out of range or not bound. */
    method Replicate(tsc: nat, peer: nat) returns (token: Token)
      modifies this
      ensures var s' := Next(old(View()), Action.Replicate(tsc, peer));
              && lastTsc == s'.last && logicalSeq == s'.logical
              && token == if s'.draws == [] then NoToken else Token(s'.draws[0].token)
    {
      hide Low, Shifted;
      if peer >= peers.Length || !peers[peer] {
        return NoToken;
      }
      var last := lastTsc;
      if tsc > last {
        lastTsc := tsc;
        logicalSeq := 0;
        token := Token(Shifted(tsc));
      } else {
        var jitter := tsc % 16;
        var logical := logicalSeq;
        logicalSeq := (logicalSeq + jitter + 1) % TWO_32;
        token := Token(Shifted(last) + Low(true, logical));
      }
    }

    /** The token of a broadcast and the peers that are offered a copy, each bound one once. */
    method BlastToAll(tsc: nat) returns (token: nat, offered: seq<nat>)
      modifies this
      ensures var s' := Next(old(View()), Blast(tsc));
              lastTsc == s'.last && logicalSeq == s'.logical && token == s'.draws[0].token
      ensures offered == BoundBelow(peers[..], peers.Length)
    {
      hide Low, Shifted;
      var last := lastTsc;
      if tsc > last {
        lastTsc := tsc;
        logicalSeq := 0;
        token := Shifted(tsc);
      } else {
        var logical := logicalSeq;
        logicalSeq := (logicalSeq + 1) % TWO_32;
        token := Shifted(last) + Low(false, logical);
      }
      offered := Offer();
    }

    method Offer() returns (offered: seq<nat>)
      ensures offered == BoundBelow(peers[..], peers.Length)
    {
      offered := [];
      for i := 0 to peers.Length
        invariant offered == BoundBelow(peers[..], i)
      {
        if peers[i] {
          offered := offered + [i];
        }
      }
    }
  }

  function BoundBelow(peers: seq<bool>, n: nat): (r: seq<nat>)
    requires n <= |peers|
    ensures forall i :: i in r <==> 0 <= i < n && peers[i]
    ensures forall i :: 0 <= i < |r| ==> r[i] < n
    ensures forall i, j :: 0 <= i < j < |r| ==> r[i] < r[j]
  {
    if n == 0 then []
    else if peers[n - 1] then BoundBelow(peers, n - 1) + [n - 1]
    else BoundBelow(peers, n - 1)
  }
}
