/** The fan-out switch (include/slabflux/bridge/round_robin_switch.hpp:93-143).

    Conduits are bounded first-in first-out queues, each known by its number, and one conduit may be
    bound to several slots. Consumers pop between routes at will. */
module Switch {
  import opened Cycle

  datatype Action<T> = Route(item: Item<T>) | Pop(conduit: nat) | Bind(index: nat, conduit: nat)

  /** `sent` counts the items that went out through each slot; no step depends on it. */
  datatype State<T> = State(
    slots: seq<Slot>,
    next: nat,
    queues: seq<seq<T>>,
    capacity: seq<nat>,
    sent: seq<nat>)
  {
    predicate Valid() {
      && next < |slots|
      && |capacity| == |queues| && |sent| == |slots|
      && (forall i :: 0 <= i < |slots| && slots[i].Bound? ==> slots[i].conduit < |queues|)
    }

    /** A push through slot `i` would succeed. */
    predicate Room(i: nat)
      requires Valid() && i < |slots|
    {
      slots[i].Bound? && |queues[slots[i].conduit]| < capacity[slots[i].conduit]
    }

    predicate RoomAt(d: nat)
      requires Valid() && d < |slots|
    {
      Room(Pos(next, d, |slots|))
    }
  }

  function Start<T>(outputs: nat, capacity: seq<nat>): State<T> {
    State(seq(outputs, i => Unbound), 0, seq(|capacity|, i => []), capacity, seq(outputs, i => 0))
  }

  /** How far the scan goes: the first slot with room at or after distance `d`, or the number of slots. */
  function Scan<T>(s: State<T>, d: nat): (k: nat)
    requires s.Valid() && d <= |s.slots|
    ensures d <= k <= |s.slots|
    ensures forall j :: d <= j < k ==> !s.RoomAt(j)
    ensures k < |s.slots| ==> s.RoomAt(k)
    decreases |s.slots| - d
  {
    if d == |s.slots| || s.RoomAt(d) then d else Scan(s, d + 1)
  }

  /** Whether a route succeeds, and the slot it goes out through. */
  predicate Accepts<T>(s: State<T>, x: Item<T>)
    requires s.Valid()
  {
    x.Ptr? && Scan(s, 0) < |s.slots|
  }

  function Chosen<T>(s: State<T>): (i: nat)
    requires s.Valid() && Scan(s, 0) < |s.slots|
    ensures i < |s.slots| && s.Room(i)
  {
    Pos(s.next, Scan(s, 0), |s.slots|)
  }

  function Routed<T>(s: State<T>, x: Item<T>): (s': State<T>)
    requires s.Valid()
    ensures s'.Valid()
  {
    if Accepts(s, x) then
      var i := Chosen(s);
      var c := s.slots[i].conduit;
      s.(next := Succ(i, |s.slots|),
         queues := s.queues[c := s.queues[c] + [x.value]],
         sent := s.sent[i := s.sent[i] + 1])
    else s
  }

  /** A slot number out of range is ignored; a conduit that does not exist cannot be named. */
  function Next<T>(s: State<T>, a: Action<T>): (s': State<T>)
    requires s.Valid()
    ensures s'.Valid() && |s'.slots| == |s.slots| && s'.capacity == s.capacity
  {
    match a
    case Route(x) => Routed(s, x)
    case Pop(c) =>
      if c < |s.queues| && s.queues[c] != [] then s.(queues := s.queues[c := s.queues[c][1..]]) else s
    case Bind(i, c) =>
      if i < |s.slots| && c < |s.queues| then s.(slots := s.slots[i := Bound(c)]) else s
  }

  function Run<T>(outputs: nat, capacity: seq<nat>, actions: seq<Action<T>>, n: nat): (s: State<T>)
    requires 0 < outputs && n <= |actions|
    ensures s.Valid() && |s.slots| == outputs && s.capacity == capacity
  {
    if n == 0 then Start(outputs, capacity) else Next(Run(outputs, capacity, actions, n - 1), actions[n - 1])
  }

  // ---------------------------------------------------------------- one route

  /** A route fails, and then changes nothing, exactly when the item is null or every bound output is
      full. */
  lemma FailsExactly<T>(s: State<T>, x: Item<T>)
    requires s.Valid()
    ensures !Accepts(s, x) <==> x == Null || forall i :: 0 <= i < |s.slots| ==> !s.Room(i)
    ensures !Accepts(s, x) ==> Routed(s, x) == s
  {
    if Scan(s, 0) == |s.slots| {
      forall i | 0 <= i < |s.slots|
        ensures !s.Room(i)
      {
        assert !s.RoomAt(Dist(s.next, i, |s.slots|));
      }
    } else {
      assert s.Room(Chosen(s));
    }
  }

  /** A route that succeeds puts the item at the end of one queue and leaves every other one alone. */
  lemma OneOutput<T>(s: State<T>, x: Item<T>)
    requires s.Valid() && Accepts(s, x)
    ensures exists c :: 0 <= c < |s.queues| && Lands(s, Routed(s, x), x, c)
    ensures forall b, c ::
              0 <= b < |s.queues| && 0 <= c < |s.queues| ==>
              Lands(s, Routed(s, x), x, b) && Lands(s, Routed(s, x), x, c) ==> b == c
  {
    hide Scan;
    var c := s.slots[Chosen(s)].conduit;
    assert Lands(s, Routed(s, x), x, c);
    forall b | 0 <= b < |s.queues| && Lands(s, Routed(s, x), x, b)
      ensures b == c
    {
      assert |Routed(s, x).queues[b]| == |s.queues[b]| + 1;
    }
  }

  predicate Lands<T(==)>(s: State<T>, s': State<T>, x: Item<T>, c: nat)
    requires x.Ptr? && c < |s.queues| && |s'.queues| == |s.queues|
  {
    && s'.queues[c] == s.queues[c] + [x.value]
    && (forall b :: 0 <= b < |s.queues| && b != c ==> s'.queues[b] == s.queues[b])
  }

  // ---------------------------------------------------------------- no output is passed over for long

  /** Action `t` is a route that succeeds. */
  predicate Succeeds<T(==)>(outputs: nat, capacity: seq<nat>, actions: seq<Action<T>>, t: nat)
    requires 0 < outputs && t < |actions|
  {
    actions[t].Route? && Accepts(Run(outputs, capacity, actions, t), actions[t].item)
  }

  /** Action `t` is a route that goes out through slot `i`. */
  predicate SentTo<T(==)>(outputs: nat, capacity: seq<nat>, actions: seq<Action<T>>, t: nat, i: nat)
    requires 0 < outputs && t < |actions| && i < outputs
  {
    Succeeds(outputs, capacity, actions, t) && Chosen(Run(outputs, capacity, actions, t)) == i
  }

  function Successes<T(==)>(outputs: nat, capacity: seq<nat>, actions: seq<Action<T>>, from: nat, to: nat): nat
    requires 0 < outputs && from <= to <= |actions|
  {
    if from == to then 0
    else
      Successes(outputs, capacity, actions, from, to - 1) +
      if Succeeds(outputs, capacity, actions, to - 1) then 1 else 0
  }

  predicate AlwaysRoom<T>(outputs: nat, capacity: seq<nat>, actions: seq<Action<T>>, from: nat, to: nat, i: nat)
    requires 0 < outputs && from <= to <= |actions| && i < outputs
  {
    forall t :: from <= t < to ==> Run(outputs, capacity, actions, t).Room(i)
  }

  lemma RouteComesCloser<T>(s: State<T>, x: Item<T>, i: nat)
    requires s.Valid() && i < |s.slots| && s.Room(i) && Accepts(s, x) && Chosen(s) != i
    ensures Dist(Routed(s, x).next, i, |s.slots|) < Dist(s.next, i, |s.slots|)
  {
    var d := Dist(s.next, i, |s.slots|);
    assert s.RoomAt(d);
    assert Scan(s, 0) < d;
    Closer(s.next, Scan(s, 0), i, |s.slots|);
  }

  lemma {:induction false} Approaches<T>(
    outputs: nat, capacity: seq<nat>, actions: seq<Action<T>>, from: nat, to: nat, i: nat)
    requires 0 < outputs && from <= to <= |actions| && i < outputs
    requires AlwaysRoom(outputs, capacity, actions, from, to, i)
    requires forall t :: from <= t < to ==> !SentTo(outputs, capacity, actions, t, i)
    ensures Dist(Run(outputs, capacity, actions, to).next, i, outputs)
         + Successes(outputs, capacity, actions, from, to)
         <= Dist(Run(outputs, capacity, actions, from).next, i, outputs)
  {
    hide Dist, Accepts, Chosen;
    if from == to {
    } else {
      Approaches(outputs, capacity, actions, from, to - 1, i);
      var s := Run(outputs, capacity, actions, to - 1);
      assert s.Room(i) && !SentTo(outputs, capacity, actions, to - 1, i);
      if Succeeds(outputs, capacity, actions, to - 1) {
        RouteComesCloser(s, actions[to - 1].item, i);
      }
    }
  }

  /** An output that always has room gets an item within as many successful routes as there are
      outputs, whatever is popped and bound in between. */
  lemma SentInTime<T>(outputs: nat, capacity: seq<nat>, actions: seq<Action<T>>, from: nat, to: nat, i: nat)
    requires 0 < outputs && from <= to <= |actions| && i < outputs
    requires AlwaysRoom(outputs, capacity, actions, from, to, i)
    requires Successes(outputs, capacity, actions, from, to) >= outputs
    ensures exists t :: from <= t < to && SentTo(outputs, capacity, actions, t, i)
  {
    hide Run, Successes, SentTo, AlwaysRoom;
    if forall t :: from <= t < to ==> !SentTo(outputs, capacity, actions, t, i) {
      Approaches(outputs, capacity, actions, from, to, i);
    }
  }

  // ---------------------------------------------------------------- evenness

  /** `r` successes as whole laps and a rest. */
  function Laps(r: nat, n: nat): (l: (nat, nat))
    requires 0 < n
    ensures l.1 < n && l.0 * n + l.1 == r
  {
    if r == 0 then (0, 0)
    else var l := Laps(r - 1, n); if l.1 + 1 == n then (l.0 + 1, 0) else (l.0, l.1 + 1)
  }

  /** No route of a real item is refused by the slot under the cursor. */
  predicate NoRefusal<T>(outputs: nat, capacity: seq<nat>, actions: seq<Action<T>>, from: nat, to: nat)
    requires 0 < outputs && from <= to <= |actions|
  {
    forall t :: from <= t < to && actions[t].Route? && actions[t].item.Ptr? ==>
                  Run(outputs, capacity, actions, t).RoomAt(0)
  }

  /** What slot `i` has sent since action `from`. */
  function Share<T>(outputs: nat, capacity: seq<nat>, actions: seq<Action<T>>, from: nat, to: nat, i: nat): int
    requires 0 < outputs && from <= to <= |actions| && i < outputs
  {
    var after: int := Run(outputs, capacity, actions, to).sent[i];
    after - Run(outputs, capacity, actions, from).sent[i]
  }

  lemma {:induction false} ShareIsLaps<T>(
    outputs: nat, capacity: seq<nat>, actions: seq<Action<T>>, from: nat, to: nat, i: nat)
    requires 0 < outputs && from <= to <= |actions| && i < outputs
    requires NoRefusal(outputs, capacity, actions, from, to)
    ensures var start := Run(outputs, capacity, actions, from).next;
            var l := Laps(Successes(outputs, capacity, actions, from, to), outputs);
            && Run(outputs, capacity, actions, to).next == Pos(start, l.1, outputs)
            && Share(outputs, capacity, actions, from, to, i) == l.0 + if Dist(start, i, outputs) < l.1 then 1 else 0
  {
    hide Dist, Pos, Laps, Next, Accepts;
    var start := Run(outputs, capacity, actions, from).next;
    if from == to {
      FromHere(start, outputs);
    } else {
      ShareIsLaps(outputs, capacity, actions, from, to - 1, i);
      var r := Successes(outputs, capacity, actions, from, to - 1);
      StraightOn(Run(outputs, capacity, actions, to - 1), actions[to - 1]);
      OneMore(start, i, r, outputs);
    }
  }

  lemma FromHere(start: nat, n: nat)
    requires start < n
    ensures Pos(start, 0, n) == start && Laps(0, n) == (0, 0)
  {
  }

  lemma StraightOn<T>(s: State<T>, a: Action<T>)
    requires s.Valid()
    requires a.Route? && a.item.Ptr? ==> s.RoomAt(0)
    ensures var s' := Next(s, a);
            if a.Route? && Accepts(s, a.item) then
              s'.next == Succ(s.next, |s.slots|) && s'.sent == s.sent[s.next := s.sent[s.next] + 1]
            else s'.next == s.next && s'.sent == s.sent
  {
  }

  lemma OneMore(start: nat, i: nat, r: nat, n: nat)
    requires start < n && i < n
    ensures var l, m := Laps(r, n), Laps(r + 1, n);
            && Succ(Pos(start, l.1, n), n) == Pos(start, m.1, n)
            && (m.0 + if Dist(start, i, n) < m.1 then 1 else 0)
            == (l.0 + if Dist(start, i, n) < l.1 then 1 else 0) + if Pos(start, l.1, n) == i then 1 else 0
  {
    PosSucc(start, Laps(r, n).1, n);
    PosDist(start, Laps(r, n).1, n);
  }

  /** Over any stretch in which the slot under the cursor always has room, the outputs receive equally
      many items, up to one. */
  lemma Even<T>(outputs: nat, capacity: seq<nat>, actions: seq<Action<T>>, from: nat, to: nat, i: nat, j: nat)
    requires 0 < outputs && from <= to <= |actions| && i < outputs && j < outputs
    requires NoRefusal(outputs, capacity, actions, from, to)
    ensures Share(outputs, capacity, actions, from, to, i) - Share(outputs, capacity, actions, from, to, j) <= 1
  {
    hide Share, Dist, Laps, Run, Successes;
    ShareIsLaps(outputs, capacity, actions, from, to, i);
    ShareIsLaps(outputs, capacity, actions, from, to, j);
  }

  // ---------------------------------------------------------------- the switch object

  /** The conduits; a conduit pointer is a number here. */
  class Conduits<T> {
    var queues: seq<seq<T>>
    const capacity: seq<nat>

    method TryPush(c: nat, x: T) returns (ok: bool)
      requires c < |queues| == |capacity|
      modifies this`queues
      ensures ok == (|old(queues)[c]| < capacity[c])
      ensures queues == if ok then old(queues)[c := old(queues)[c] + [x]] else old(queues)
    {
      ok := |queues[c]| < capacity[c];
      if ok {
        queues := queues[c := queues[c] + [x]];
      }
    }
  }

  class RoundRobinSwitch<T> {
    const outputs: array<Slot>
    var next: nat
    ghost var sent: seq<nat>

    ghost predicate Valid(m: Conduits<T>)
      reads this, outputs, m
    {
      View(m).Valid()
    }

    ghost function View(m: Conduits<T>): State<T>
      reads this, outputs, m
    {
      State(outputs[..], next, m.queues, m.capacity, sent)
    }

    constructor (numOutputs: nat, m: Conduits<T>)
      requires 0 < numOutputs && |m.queues| == |m.capacity|
      ensures Valid(m) && fresh(outputs)
      ensures outputs[..] == seq(numOutputs, i => Unbound) && next == 0 && sent == seq(numOutputs, i => 0)
    {
      outputs := new Slot[numOutputs](_ => Unbound);
      next, sent := 0, seq(numOutputs, i => 0);
    }

    method BindTrack(index: nat, conduit: nat, ghost m: Conduits<T>)
      requires Valid(m) && conduit < |m.queues|
      modifies outputs
      ensures Valid(m)
      ensures View(m) == Next(old(View(m)), Bind(index, conduit))
    {
      if index < outputs.Length {
        outputs[index] := Bound(conduit);
      }
    }

    method Route(m: Conduits<T>, item: Item<T>) returns (ok: bool)
      requires Valid(m)
      modifies this, m
      ensures Valid(m)
      ensures ok == Accepts(old(View(m)), item)
      ensures View(m) == Routed(old(View(m)), item)
    {
      if item.Null? {
        return false;
      }
      ghost var s := View(m);
      var idx := next;
      var i := 0;
      while i < outputs.Length
        invariant 0 <= i <= outputs.Length && View(m) == s
        invariant idx < outputs.Length && idx == if i < outputs.Length then Pos(next, i, outputs.Length) else next
        invariant Scan(s, 0) == Scan(s, i)
      {
        assert s.slots[idx] == outputs[idx];
        var success := false;
        if outputs[idx].Bound? {
          success := m.TryPush(outputs[idx].conduit, item.value);
        }
        assert success == s.RoomAt(i);
        if success {
          assert idx == Chosen(s);
          next := if idx + 1 == outputs.Length then 0 else idx + 1;
          sent := sent[idx := sent[idx] + 1];
          return true;
        }
        PosSucc(next, i, outputs.Length);
        idx := if idx + 1 == outputs.Length then 0 else idx + 1;
        i := i + 1;
      }
      return false;
    }
  }
}
