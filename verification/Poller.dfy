/** The fan-in poller (include/slabflux/bridge/round_robin_poller.hpp:90-144).

    Conduits are first-in first-out queues of pointers, which may be null. A conduit is known by its
    number, and one conduit may be bound to several slots. Producers push between polls at will. */
module Poller {
  import opened Cycle

  datatype Action<T> = Push(conduit: nat, item: Item<T>) | Bind(index: nat, conduit: nat) | Poll

  /** `pushed` and `popped` only record the run; no step depends on them. */
  datatype State<T> = State(
    slots: seq<Slot>,
    next: nat,
    queues: seq<seq<Item<T>>>,
    pushed: seq<seq<Item<T>>>,
    popped: seq<seq<Item<T>>>)
  {
    predicate Valid() {
      && next < |slots|
      && |pushed| == |queues| && |popped| == |queues|
      && (forall i :: 0 <= i < |slots| && slots[i].Bound? ==> slots[i].conduit < |queues|)
    }

    /** A pop from slot `i` would succeed. */
    predicate Ready(i: nat)
      requires Valid() && i < |slots|
    {
      slots[i].Bound? && queues[slots[i].conduit] != []
    }

    predicate ReadyAt(d: nat)
      requires Valid() && d < |slots|
    {
      Ready(Pos(next, d, |slots|))
    }
  }

  function Start<T>(inputs: nat, conduits: nat): State<T> {
    State(seq(inputs, i => Unbound), 0, seq(conduits, i => []), seq(conduits, i => []), seq(conduits, i => []))
  }

  /** How far the scan goes: the first ready slot at or after distance `d`, or the number of slots. */
  function Scan<T>(s: State<T>, d: nat): (k: nat)
    requires s.Valid() && d <= |s.slots|
    ensures d <= k <= |s.slots|
    ensures forall j :: d <= j < k ==> !s.ReadyAt(j)
    ensures k < |s.slots| ==> s.ReadyAt(k)
    decreases |s.slots| - d
  {
    if d == |s.slots| || s.ReadyAt(d) then d else Scan(s, d + 1)
  }

  /** Whether a poll finds anything, and the slot it takes it from. */
  predicate Serves<T>(s: State<T>)
    requires s.Valid()
  {
    Scan(s, 0) < |s.slots|
  }

  function Served<T>(s: State<T>): (i: nat)
    requires s.Valid() && Serves(s)
    ensures i < |s.slots| && s.Ready(i)
  {
    Pos(s.next, Scan(s, 0), |s.slots|)
  }

  function Result<T>(s: State<T>): Item<T>
    requires s.Valid()
  {
    if Serves(s) then s.queues[s.slots[Served(s)].conduit][0] else Null
  }

  function Polled<T>(s: State<T>): (s': State<T>)
    requires s.Valid()
    ensures s'.Valid()
  {
    if Serves(s) then
      var c := s.slots[Served(s)].conduit;
      s.(next := Succ(Served(s), |s.slots|),
         queues := s.queues[c := s.queues[c][1..]],
         popped := s.popped[c := s.popped[c] + [s.queues[c][0]]])
    else s
  }

  /** A slot number out of range is ignored; a conduit that does not exist cannot be named. */
  function Next<T>(s: State<T>, a: Action<T>): (s': State<T>)
    requires s.Valid()
    ensures s'.Valid() && |s'.slots| == |s.slots| && |s'.queues| == |s.queues|
  {
    match a
    case Push(c, x) =>
      if c < |s.queues| then
        s.(queues := s.queues[c := s.queues[c] + [x]], pushed := s.pushed[c := s.pushed[c] + [x]])
      else s
    case Bind(i, c) =>
      if i < |s.slots| && c < |s.queues| then s.(slots := s.slots[i := Bound(c)]) else s
    case Poll => Polled(s)
  }

  function Run<T>(inputs: nat, conduits: nat, actions: seq<Action<T>>, n: nat): (s: State<T>)
    requires 0 < inputs && n <= |actions|
    ensures s.Valid() && |s.slots| == inputs && |s.queues| == conduits
  {
    if n == 0 then Start(inputs, conduits) else Next(Run(inputs, conduits, actions, n - 1), actions[n - 1])
  }

  // ---------------------------------------------------------------- one poll

  /** A poll finds nothing exactly when every bound conduit is empty. */
  lemma FindsNothing<T>(s: State<T>)
    requires s.Valid()
    ensures !Serves(s) <==> forall i :: 0 <= i < |s.slots| ==> !s.Ready(i)
  {
    if !Serves(s) {
      forall i | 0 <= i < |s.slots|
        ensures !s.Ready(i)
      {
        assert !s.ReadyAt(Dist(s.next, i, |s.slots|));
      }
    } else {
      assert s.Ready(Served(s));
    }
  }

  /** A poll returns null exactly when every bound conduit is empty or the oldest item of the first
      non-empty one, seen from the cursor, is itself null. */
  lemma NullExactly<T>(s: State<T>)
    requires s.Valid()
    ensures Result(s) == Null <==>
      || (forall i :: 0 <= i < |s.slots| ==> !s.Ready(i))
      || (exists d :: 0 <= d < |s.slots| && FirstReady(s, d) && HeadAt(s, d) == Null)
  {
    FindsNothing(s);
    if exists d :: 0 <= d < |s.slots| && FirstReady(s, d) && HeadAt(s, d) == Null {
      var d :| 0 <= d < |s.slots| && FirstReady(s, d) && HeadAt(s, d) == Null;
      FirstReadyScan(s, d);
    }
    if Serves(s) {
      FirstReadyScan(s, Scan(s, 0));
    }
  }

  predicate FirstReady<T>(s: State<T>, d: nat)
    requires s.Valid() && d < |s.slots|
  {
    s.ReadyAt(d) && forall j :: 0 <= j < d ==> !s.ReadyAt(j)
  }

  function HeadAt<T>(s: State<T>, d: nat): Item<T>
    requires s.Valid() && d < |s.slots| && s.ReadyAt(d)
  {
    s.queues[s.slots[Pos(s.next, d, |s.slots|)].conduit][0]
  }

  lemma FirstReadyScan<T>(s: State<T>, d: nat)
    requires s.Valid() && d < |s.slots|
    ensures FirstReady(s, d) <==> Scan(s, 0) == d
  {
  }

  /** A null item at the head of the only queue: the poll removes it, returns null, and leaves an item
      behind. */
  lemma NullItemLost()
    ensures var a := [Bind(0, 0), Push(0, Null), Push(0, Ptr(7))];
            var s := Run(1, 1, a, 3);
            s.Ready(0) && Result(s) == Null && Polled(s).queues[0] == [Ptr(7)]
  {
    var a := [Bind(0, 0), Push(0, Null), Push(0, Ptr(7))];
    var s1, s2, s3 := Run(1, 1, a, 1), Run(1, 1, a, 2), Run(1, 1, a, 3);
    assert s1 == Next(Start(1, 1), a[0]) && s2 == Next(s1, a[1]) && s3 == Next(s2, a[2]);
    assert s3.slots == [Bound(0)] && s3.next == 0;
    assert s3.queues[0] == [Null, Ptr(7)];
    assert s3.ReadyAt(0);
  }

  // ---------------------------------------------------------------- conservation

  ghost predicate Conserved<T>(s: State<T>) {
    s.Valid() && forall c :: 0 <= c < |s.queues| ==> s.pushed[c] == s.popped[c] + s.queues[c]
  }

  lemma StepConserves<T>(s: State<T>, a: Action<T>)
    requires Conserved(s)
    ensures Conserved(Next(s, a))
  {
    var s' := Next(s, a);
    forall c | 0 <= c < |s'.queues|
      ensures s'.pushed[c] == s'.popped[c] + s'.queues[c]
    {
      assert s.pushed[c] == s.popped[c] + s.queues[c];
    }
  }

  /** What was popped from each conduit and what is still in it are together what was pushed to it,
      in order: deliveries are a prefix of the pushes, nothing lost and nothing repeated. */
  lemma {:induction false} NothingLost<T>(inputs: nat, conduits: nat, actions: seq<Action<T>>, n: nat, c: nat)
    requires 0 < inputs && n <= |actions| && c < conduits
    ensures var s := Run(inputs, conduits, actions, n); s.pushed[c] == s.popped[c] + s.queues[c]
  {
    hide Next;
    RunConserves(inputs, conduits, actions, n);
  }

  lemma {:induction false} RunConserves<T>(inputs: nat, conduits: nat, actions: seq<Action<T>>, n: nat)
    requires 0 < inputs && n <= |actions|
    ensures Conserved(Run(inputs, conduits, actions, n))
  {
    hide Next;
    if n == 0 {
    } else {
      RunConserves(inputs, conduits, actions, n - 1);
      StepConserves(Run(inputs, conduits, actions, n - 1), actions[n - 1]);
    }
  }

  predicate NoNulls<T>(q: seq<Item<T>>) { forall i :: 0 <= i < |q| ==> q[i].Ptr? }

  /** When no null was ever pushed, null means that every bound conduit is empty. */
  lemma NullMeansEmpty<T>(inputs: nat, conduits: nat, actions: seq<Action<T>>, n: nat)
    requires 0 < inputs && n <= |actions|
    requires forall c :: 0 <= c < conduits ==> NoNulls(Run(inputs, conduits, actions, n).pushed[c])
    ensures var s := Run(inputs, conduits, actions, n);
            Result(s) == Null <==> forall i :: 0 <= i < inputs ==> !s.Ready(i)
  {
    hide Run, Scan;
    var s := Run(inputs, conduits, actions, n);
    FindsNothing(s);
    if Serves(s) {
      var c := s.slots[Served(s)].conduit;
      NothingLost(inputs, conduits, actions, n, c);
      assert NoNulls(s.pushed[c]);
      assert s.queues[c][0] == s.pushed[c][|s.popped[c]|];
    }
  }

  // ---------------------------------------------------------------- starvation freedom

  /** Slot `i` is bound and its conduit is not empty before each of the actions `from` to `to`. */
  predicate StaysReady<T>(inputs: nat, conduits: nat, actions: seq<Action<T>>, from: nat, to: nat, i: nat)
    requires 0 < inputs && from <= to <= |actions| && i < inputs
  {
    forall t :: from <= t < to ==> Run(inputs, conduits, actions, t).Ready(i)
  }

  /** Action `t` is a poll that takes its item from slot `i`. */
  predicate ServedBy<T(==)>(inputs: nat, conduits: nat, actions: seq<Action<T>>, t: nat, i: nat)
    requires 0 < inputs && t < |actions| && i < inputs
  {
    actions[t] == Poll && var s := Run(inputs, conduits, actions, t); Serves(s) && Served(s) == i
  }

  function Polls<T(==)>(actions: seq<Action<T>>, from: nat, to: nat): nat
    requires from <= to <= |actions|
  {
    if from == to then 0 else Polls(actions, from, to - 1) + if actions[to - 1] == Poll then 1 else 0
  }

  lemma PollComesCloser<T>(s: State<T>, i: nat)
    requires s.Valid() && i < |s.slots| && s.Ready(i)
    ensures Serves(s)
    ensures Served(s) != i ==> Dist(Polled(s).next, i, |s.slots|) < Dist(s.next, i, |s.slots|)
  {
    var d := Dist(s.next, i, |s.slots|);
    assert s.ReadyAt(d);
    assert Scan(s, 0) <= d;
    if Scan(s, 0) < d {
      Closer(s.next, Scan(s, 0), i, |s.slots|);
    }
  }

  lemma {:induction false} Approaches<T>(
    inputs: nat, conduits: nat, actions: seq<Action<T>>, from: nat, to: nat, i: nat)
    requires 0 < inputs && from <= to <= |actions| && i < inputs
    requires StaysReady(inputs, conduits, actions, from, to, i)
    requires forall t :: from <= t < to ==> !ServedBy(inputs, conduits, actions, t, i)
    ensures Dist(Run(inputs, conduits, actions, to).next, i, inputs) + Polls(actions, from, to)
         <= Dist(Run(inputs, conduits, actions, from).next, i, inputs)
  {
    hide Dist, Polled, Serves, Served;
    if from == to {
    } else {
      Approaches(inputs, conduits, actions, from, to - 1, i);
      var s := Run(inputs, conduits, actions, to - 1);
      assert s.Ready(i) && !ServedBy(inputs, conduits, actions, to - 1, i);
      PollComesCloser(s, i);
    }
  }

  /** A slot whose conduit stays non-empty is served within as many polls as there are slots, whatever
      is pushed and bound in between. */
  lemma ServedInTime<T>(inputs: nat, conduits: nat, actions: seq<Action<T>>, from: nat, to: nat, i: nat)
    requires 0 < inputs && from <= to <= |actions| && i < inputs
    requires StaysReady(inputs, conduits, actions, from, to, i)
    requires Polls(actions, from, to) >= inputs
    ensures exists t :: from <= t < to && ServedBy(inputs, conduits, actions, t, i)
  {
    hide Run, Polls, ServedBy, StaysReady;
    if forall t :: from <= t < to ==> !ServedBy(inputs, conduits, actions, t, i) {
      Approaches(inputs, conduits, actions, from, to, i);
    }
  }

  /** Being served means that the oldest item of the conduit is what the poll returns and hands over. */
  lemma {:induction false} ServedDelivers<T>(inputs: nat, conduits: nat, actions: seq<Action<T>>, t: nat, i: nat)
    requires 0 < inputs && t < |actions| && i < inputs
    requires ServedBy(inputs, conduits, actions, t, i)
    ensures var s, s' := Run(inputs, conduits, actions, t), Run(inputs, conduits, actions, t + 1);
            var c := s.slots[i].conduit;
            && s.queues[c] == [Result(s)] + s'.queues[c]
            && s'.popped[c] == s.popped[c] + [Result(s)]
            && forall b :: 0 <= b < conduits && b != c ==> s'.queues[b] == s.queues[b] && s'.popped[b] == s.popped[b]
  {
    hide Scan;
    var s := Run(inputs, conduits, actions, t);
    assert Run(inputs, conduits, actions, t + 1) == Polled(s);
  }

  // ---------------------------------------------------------------- the poller object

  /** The conduits; a conduit pointer is a number here. */
  class Conduits<T> {
    var queues: seq<seq<Item<T>>>

    method TryPop(c: nat) returns (ok: bool, item: Item<T>)
      requires c < |queues|
      modifies this
      ensures ok == (old(queues)[c] != [])
      ensures ok ==> item == old(queues)[c][0] && queues == old(queues)[c := old(queues)[c][1..]]
      ensures !ok ==> item == Null && queues == old(queues)
    {
      ok, item := queues[c] != [], Null;
      if ok {
        item := queues[c][0];
        queues := queues[c := queues[c][1..]];
      }
    }
  }

  class RoundRobinPoller<T> {
    const inputs: array<Slot>
    var next: nat

    ghost predicate Valid(m: Conduits<T>)
      reads this, inputs, m
    {
      View(m).Valid()
    }

    /** The scheduler's state, with empty records of the past. */
    ghost function View(m: Conduits<T>): State<T>
      reads this, inputs, m
    {
      State(inputs[..], next, m.queues, seq(|m.queues|, i => []), seq(|m.queues|, i => []))
    }

    constructor (numInputs: nat, m: Conduits<T>)
      requires 0 < numInputs
      ensures Valid(m) && fresh(inputs)
      ensures inputs[..] == seq(numInputs, i => Unbound) && next == 0
    {
      inputs := new Slot[numInputs](_ => Unbound);
      next := 0;
    }

    method BindTrack(index: nat, conduit: nat, ghost m: Conduits<T>)
      requires Valid(m) && conduit < |m.queues|
      modifies inputs
      ensures Valid(m)
      ensures View(m) == Next(old(View(m)), Bind(index, conduit))
    {
      if index < inputs.Length {
        inputs[index] := Bound(conduit);
      }
    }

    method Poll(m: Conduits<T>) returns (item: Item<T>)
      requires Valid(m)
      modifies this`next, m
      ensures Valid(m)
      ensures item == Result(old(View(m)))
      ensures next == Polled(old(View(m))).next && m.queues == Polled(old(View(m))).queues
    {
      ghost var s := View(m);
      var idx := next;
      var i := 0;
      while i < inputs.Length
        invariant 0 <= i <= inputs.Length && next == s.next && m.queues == s.queues && inputs[..] == s.slots
        invariant idx < inputs.Length && idx == if i < inputs.Length then Pos(next, i, inputs.Length) else next
        invariant Scan(s, 0) == Scan(s, i)
      {
        assert s.slots[idx] == inputs[idx];
        var success, raw := false, Null;
        if inputs[idx].Bound? {
          success, raw := m.TryPop(inputs[idx].conduit);
        }
        assert success == s.ReadyAt(i);
        if success {
          next := if idx + 1 == inputs.Length then 0 else idx + 1;
          return raw;
        }
        PosSucc(next, i, inputs.Length);
        idx := if idx + 1 == inputs.Length then 0 else idx + 1;
        i := i + 1;
      }
      return Null;
    }
  }
}
