/** Divergence traps of the engine (include/slabflux/compute/simd_engine.hpp:195-201, 298-312, 379-456).

    A trap asks for a comparison with a reference state at one LSN. The registry holds at most
    sixteen of them, kept in LSN order by insertion, and a cursor marks the next one to fire. */
module Traps {

  const MAX_TRAPS := 16

  datatype Trap<R> = Trap(reference: R, lsn: nat)

  /** A comparison that took place, or a registration that was accepted: which trap, and the LSN of the
      engine at that moment. */
  datatype Noted<R> = Noted(trap: Trap<R>, at: nat)

  datatype Action<R> = Process | Tick | Register(trap: Trap<R>)

  /** `accepted` only records the run; no step depends on it. */
  datatype State<R> = State(lsn: nat, traps: seq<Trap<R>>, cursor: nat, fired: seq<Noted<R>>, accepted: seq<Noted<R>>)

  function Start<R>(): State<R> { State(0, [], 0, [], []) }

  /** Where a new trap ends up among the first `n`: behind the last one that is not later. */
  function Slot<R>(traps: seq<Trap<R>>, lsn: nat, n: nat): (p: nat)
    requires n <= |traps|
    ensures p <= n
    ensures p > 0 ==> traps[p - 1].lsn <= lsn
    ensures forall i :: p <= i < n ==> lsn < traps[i].lsn
  {
    if n == 0 || traps[n - 1].lsn <= lsn then n else Slot(traps, lsn, n - 1)
  }

  function Insert<R>(traps: seq<Trap<R>>, t: Trap<R>, p: nat): (r: seq<Trap<R>>)
    requires p <= |traps|
    ensures |r| == |traps| + 1 && r[p] == t
    ensures forall i :: 0 <= i < p ==> r[i] == traps[i]
    ensures forall i :: p < i < |r| ==> r[i] == traps[i - 1]
  {
    traps[..p] + [t] + traps[p..]
  }

  lemma Exchanged<R>(was: seq<Trap<R>>, t: Trap<R>, i: nat, now: seq<Trap<R>>)
    requires 0 < i <= |was| && now == Insert(was, t, i)
    ensures now[i := was[i - 1]][i - 1 := t] == Insert(was, t, i - 1)
  {
  }

  /** The cursor after the firing loop. */
  function Passed<R>(traps: seq<Trap<R>>, cursor: nat, lsn: nat): (end: nat)
    requires cursor <= |traps|
    ensures cursor <= end <= |traps|
    ensures forall i :: cursor <= i < end ==> traps[i].lsn == lsn
    ensures end < |traps| ==> traps[end].lsn != lsn
    decreases |traps| - cursor
  {
    if cursor < |traps| && traps[cursor].lsn == lsn then Passed(traps, cursor + 1, lsn) else cursor
  }

  /** Trap `i` for every `i` below the cursor, each fired at `lsn`. */
  function Fires<R>(traps: seq<Trap<R>>, from: nat, end: nat, lsn: nat): seq<Noted<R>>
    requires from <= end <= |traps|
  {
    seq(end - from, i requires 0 <= i < end - from => Noted(traps[from + i], lsn))
  }

  lemma FiresAt<R>(traps: seq<Trap<R>>, from: nat, end: nat, lsn: nat)
    requires from <= end <= |traps|
    ensures |Fires(traps, from, end, lsn)| == end - from
    ensures forall i :: 0 <= i < end - from ==> Fires(traps, from, end, lsn)[i] == Noted(traps[from + i], lsn)
  {
  }

  predicate Sane<R>(s: State<R>) { s.cursor <= |s.traps| }

  /** `process` and `process_tick` move the LSN and the traps alike. */
  function Forward<R>(s: State<R>): State<R>
    requires Sane(s)
  {
    var end := Passed(s.traps, s.cursor, s.lsn + 1);
    s.(lsn := s.lsn + 1, cursor := end, fired := s.fired + Fires(s.traps, s.cursor, end, s.lsn + 1))
  }

  function Registered<R>(s: State<R>, t: Trap<R>): State<R> {
    if |s.traps| >= MAX_TRAPS then s
    else
      s.(traps := Insert(s.traps, t, Slot(s.traps, t.lsn, |s.traps|)), accepted := s.accepted + [Noted(t, s.lsn)])
  }

  function Next<R>(s: State<R>, a: Action<R>): (s': State<R>)
    requires Sane(s)
    ensures Sane(s')
  {
    match a
    case Process => Forward(s)
    case Tick => Forward(s)
    case Register(t) => Registered(s, t)
  }

  function Run<R>(actions: seq<Action<R>>, n: nat): (s: State<R>)
    requires n <= |actions|
    ensures Sane(s)
  {
    if n == 0 then Start() else Next(Run(actions, n - 1), actions[n - 1])
  }

  // ---------------------------------------------------------------- the traps of one LSN

  /** Those among the first `n` traps that are set for `lsn`, in order. */
  function With<R>(traps: seq<Trap<R>>, lsn: nat, n: nat): seq<Trap<R>>
    requires n <= |traps|
  {
    if n == 0 then [] else With(traps, lsn, n - 1) + (if traps[n - 1].lsn == lsn then [traps[n - 1]] else [])
  }

  function TrapsOf<R>(notes: seq<Noted<R>>): (ts: seq<Trap<R>>)
    ensures |ts| == |notes|
  {
    seq(|notes|, i requires 0 <= i < |notes| => notes[i].trap)
  }

  /** Registrations made for `lsn`, in registration order. */
  function AskedAt<R>(s: State<R>, lsn: nat): seq<Trap<R>> { With(TrapsOf(s.accepted), lsn, |s.accepted|) }

  /** Comparisons made for traps of `lsn`, in the order they were made. */
  function ComparedAt<R>(s: State<R>, lsn: nat): seq<Trap<R>> { With(TrapsOf(s.fired), lsn, |s.fired|) }

  lemma {:induction false} WithSame<R>(a: seq<Trap<R>>, b: seq<Trap<R>>, lsn: nat, n: nat)
    requires n <= |a| && n <= |b|
    requires forall i :: 0 <= i < n ==> a[i] == b[i]
    ensures With(a, lsn, n) == With(b, lsn, n)
  {
    if n == 0 {
    } else {
      WithSame(a, b, lsn, n - 1);
    }
  }

  lemma {:induction false} WithNone<R>(a: seq<Trap<R>>, lsn: nat, m: nat, n: nat)
    requires m <= n <= |a|
    requires forall i :: m <= i < n ==> a[i].lsn != lsn
    ensures With(a, lsn, n) == With(a, lsn, m)
  {
    if n == m {
    } else {
      WithNone(a, lsn, m, n - 1);
    }
  }

  lemma WithLonger<R>(a: seq<Trap<R>>, b: seq<Trap<R>>, t: Trap<R>, lsn: nat)
    requires b == a + [t]
    ensures With(b, lsn, |b|) == With(a, lsn, |a|) + if t.lsn == lsn then [t] else []
  {
    WithSame(a, b, lsn, |a|);
  }

  /** A trap inserted ahead of later ones joins its own LSN at the end and touches no other. */
  lemma {:induction false} WithInserted<R>(a: seq<Trap<R>>, b: seq<Trap<R>>, t: Trap<R>, p: nat, lsn: nat, n: nat)
    requires p <= n <= |a| && |b| == |a| + 1
    requires forall i :: 0 <= i < p ==> b[i] == a[i]
    requires b[p] == t
    requires forall i :: p < i < |b| ==> b[i] == a[i - 1]
    requires forall i :: p <= i < n ==> t.lsn < a[i].lsn
    ensures With(b, lsn, n + 1) == With(a, lsn, n) + if t.lsn == lsn then [t] else []
  {
    WithSame(a, b, lsn, p);
    if n == p {
    } else {
      WithInserted(a, b, t, p, lsn, n - 1);
      assert b[n] == a[n - 1];
    }
  }

  // ---------------------------------------------------------------- every run

  predicate Sorted<R>(traps: seq<Trap<R>>) {
    forall i, j :: 0 <= i < j < |traps| ==> traps[i].lsn <= traps[j].lsn
  }

  /** The registry is in order and holds exactly what was accepted, equal LSNs in registration order. */
  ghost predicate Kept<R>(s: State<R>) {
    && Sane(s)
    && |s.traps| <= MAX_TRAPS
    && Sorted(s.traps)
    && (forall lsn: nat :: AskedAt(s, lsn) == With(s.traps, lsn, |s.traps|))
  }

  lemma InsertKeeps<R>(s: State<R>, t: Trap<R>)
    requires Kept(s)
    ensures Kept(Registered(s, t))
  {
    hide With, AskedAt, Insert, Sorted, Slot;
    var s' := Registered(s, t);
    if |s.traps| < MAX_TRAPS {
      var p := Slot(s.traps, t.lsn, |s.traps|);
      InsertSorted(s.traps, t, p);
      forall lsn: nat
        ensures AskedAt(s', lsn) == With(s'.traps, lsn, |s'.traps|)
      {
        WithInserted(s.traps, s'.traps, t, p, lsn, |s.traps|);
        AskedMore(s, s', t, lsn);
      }
    }
  }

  lemma InsertSorted<R>(traps: seq<Trap<R>>, t: Trap<R>, p: nat)
    requires Sorted(traps) && p <= |traps|
    requires p > 0 ==> traps[p - 1].lsn <= t.lsn
    requires forall i :: p <= i < |traps| ==> t.lsn < traps[i].lsn
    ensures Sorted(Insert(traps, t, p))
  {
    hide Insert;
    var b := Insert(traps, t, p);
    assert forall i :: 0 <= i < p ==> b[i].lsn <= t.lsn;
  }

  lemma AskedMore<R>(s: State<R>, s': State<R>, t: Trap<R>, lsn: nat)
    requires s'.accepted == s.accepted + [Noted(t, s.lsn)]
    ensures AskedAt(s', lsn) == AskedAt(s, lsn) + if t.lsn == lsn then [t] else []
  {
    assert TrapsOf(s'.accepted) == TrapsOf(s.accepted) + [t];
    WithLonger(TrapsOf(s.accepted), TrapsOf(s'.accepted), t, lsn);
  }

  lemma ForwardKeeps<R>(s: State<R>)
    requires Kept(s)
    ensures Kept(Forward(s))
  {
    hide With, AskedAt, Fires;
    forall lsn: nat
      ensures AskedAt(Forward(s), lsn) == With(s.traps, lsn, |s.traps|)
    {
      assert AskedAt(s, lsn) == With(s.traps, lsn, |s.traps|);
      SameAsked(s, Forward(s), lsn);
    }
  }

  lemma SameAsked<R>(s: State<R>, s': State<R>, lsn: nat)
    requires s'.accepted == s.accepted
    ensures AskedAt(s', lsn) == AskedAt(s, lsn)
  {
  }

  /** In every run, whatever is registered, the registry stays in order and complete. */
  lemma {:induction false} RegistryKept<R>(actions: seq<Action<R>>, n: nat)
    requires n <= |actions|
    ensures Kept(Run(actions, n))
  {
    hide Kept, Forward, Registered;
    if n == 0 {
      StartKept<R>();
    } else {
      RegistryKept(actions, n - 1);
      var s := Run(actions, n - 1);
      ForwardKeeps(s);
      if actions[n - 1].Register? {
        InsertKeeps(s, actions[n - 1].trap);
      }
    }
  }

  lemma StartKept<R>()
    ensures Kept(Start<R>())
  {
  }

  /** How often the engine moved in the first `n` actions. */
  function Moves<R>(actions: seq<Action<R>>, n: nat): nat
    requires n <= |actions|
  {
    if n == 0 then 0 else Moves(actions, n - 1) + if actions[n - 1].Register? then 0 else 1
  }

  /** The registrations asked for in the first `n` actions, each with the LSN of the engine at that moment. */
  function Asked<R>(actions: seq<Action<R>>, n: nat): seq<Noted<R>>
    requires n <= |actions|
  {
    if n == 0 then []
    else
      Asked(actions, n - 1) +
      if actions[n - 1].Register? then [Noted(actions[n - 1].trap, Moves(actions, n - 1))] else []
  }

  function AtMost<A>(xs: seq<A>, n: nat): seq<A> { if |xs| <= n then xs else xs[..n] }

  lemma AtMostSnoc<A>(xs: seq<A>, x: A, n: nat)
    ensures AtMost(xs + [x], n) == if |xs| < n then AtMost(xs, n) + [x] else AtMost(xs, n)
  {
    if |xs| >= n { assert (xs + [x])[..n] == xs[..n]; }
  }

  lemma OneAsked<R>(s: State<R>, a: Action<R>)
    requires Sane(s) && |s.traps| == |s.accepted|
    ensures var s' := Next(s, a);
            && |s'.traps| == |s'.accepted| && s'.lsn == s.lsn + (if a.Register? then 0 else 1)
            && s'.accepted == s.accepted + if a.Register? && |s.accepted| < 16 then [Noted(a.trap, s.lsn)] else []
  {
    hide Passed, Fires, Slot, Insert;
  }

  /** In every run the LSN counts the moves, and the accepted registrations are the first sixteen. */
  lemma {:induction false} FirstSixteen<R>(actions: seq<Action<R>>, n: nat)
    requires n <= |actions|
    ensures var s := Run(actions, n);
            && s.lsn == Moves(actions, n) && |s.traps| == |s.accepted|
            && s.accepted == AtMost(Asked(actions, n), 16)
  {
    hide Next, AtMost;
    if n == 0 {
      assert AtMost<Noted<R>>([], 16) == [] by { AtMostNone<Noted<R>>(16); }
    } else {
      FirstSixteen(actions, n - 1);
      OneAsked(Run(actions, n - 1), actions[n - 1]);
      AtMostSize(Asked(actions, n - 1), 16);
      if !actions[n - 1].Register? {
        assert Asked(actions, n) == Asked(actions, n - 1);
      } else {
        AtMostSnoc(Asked(actions, n - 1), Noted(actions[n - 1].trap, Moves(actions, n - 1)), 16);
      }
    }
  }

  lemma AtMostNone<A>(n: nat)
    ensures AtMost<A>([], n) == []
  {
  }

  lemma AtMostSize<A>(xs: seq<A>, n: nat)
    ensures |AtMost(xs, n)| == if |xs| <= n then |xs| else n
  {
  }

  // ---------------------------------------------------------------- runs with future traps only

  /** Every accepted trap was set for an LSN still to come. */
  predicate AllFuture<R>(s: State<R>) {
    forall i :: 0 <= i < |s.accepted| ==> s.accepted[i].at < s.accepted[i].trap.lsn
  }

  /** What lies before the cursor has fired, in order and at its own LSN; the rest is still to come. */
  ghost predicate OnTime<R>(s: State<R>) {
    && Sane(s)
    && |s.fired| == s.cursor
    && (forall i :: 0 <= i < s.cursor ==> s.traps[i].lsn <= s.lsn && s.fired[i] == Noted(s.traps[i], s.traps[i].lsn))
    && (forall i :: s.cursor <= i < |s.traps| ==> s.lsn < s.traps[i].lsn)
  }

  lemma ForwardOnTime<R>(s: State<R>)
    requires Kept(s) && OnTime(s)
    ensures OnTime(Forward(s))
  {
    hide Passed, Fires, With, AskedAt;
    var s' := Forward(s);
    FiresAt(s.traps, s.cursor, s'.cursor, s'.lsn);
    forall i | s'.cursor <= i < |s.traps|
      ensures s'.lsn < s.traps[i].lsn
    {
      assert s.traps[s'.cursor].lsn <= s.traps[i].lsn;
    }
  }

  lemma InsertOnTime<R>(s: State<R>, t: Trap<R>)
    requires OnTime(s) && s.lsn < t.lsn
    ensures OnTime(Registered(s, t))
  {
    hide Insert, Slot;
    if |s.traps| < MAX_TRAPS {
      var p := Slot(s.traps, t.lsn, |s.traps|);
      assert p >= s.cursor by {
        assert s.cursor > 0 ==> s.traps[s.cursor - 1].lsn < t.lsn;
      }
    }
  }

  // ---------------------------------------------------------------- a trap set too late

  /** The trap under the cursor is already behind the engine, and some trap that is due has not fired. */
  ghost predicate Jammed<R>(s: State<R>) {
    && s.cursor < |s.traps|
    && s.traps[s.cursor].lsn <= s.lsn
    && (exists lsn: nat :: lsn <= s.lsn && |ComparedAt(s, lsn)| < |AskedAt(s, lsn)|)
  }

  lemma ForwardJammed<R>(s: State<R>)
    requires Jammed(s)
    ensures Jammed(Forward(s)) && Forward(s).fired == s.fired
  {
    hide With;
    var s' := Forward(s);
    assert s'.cursor == s.cursor && s'.fired == s.fired;
    var lsn: nat :| lsn <= s.lsn && |ComparedAt(s, lsn)| < |AskedAt(s, lsn)|;
    assert ComparedAt(s', lsn) == ComparedAt(s, lsn) && AskedAt(s', lsn) == AskedAt(s, lsn);
  }

  lemma InsertJammed<R>(s: State<R>, t: Trap<R>)
    requires Kept(s) && Jammed(s)
    ensures Jammed(Registered(s, t)) && Registered(s, t).fired == s.fired
  {
    hide With;
    var s' := Registered(s, t);
    var lsn: nat :| lsn <= s.lsn && |ComparedAt(s, lsn)| < |AskedAt(s, lsn)|;
    assert ComparedAt(s', lsn) == ComparedAt(s, lsn);
    if |s.traps| < MAX_TRAPS {
      AskedMore(s, s', t, lsn);
      InsertedUnderCursor(s, t);
    }
  }

  lemma InsertedUnderCursor<R>(s: State<R>, t: Trap<R>)
    requires Sorted(s.traps) && s.cursor < |s.traps| < MAX_TRAPS
    requires s.traps[s.cursor].lsn <= s.lsn
    ensures Registered(s, t).traps[s.cursor].lsn <= s.lsn
  {
    hide Insert, Slot;
    var p := Slot(s.traps, t.lsn, |s.traps|);
    var b := Insert(s.traps, t, p);
    assert p < s.cursor ==> b[s.cursor] == s.traps[s.cursor - 1];
    assert p == s.cursor ==> b[s.cursor] == t && t.lsn < s.traps[p].lsn;
    assert p > s.cursor ==> b[s.cursor] == s.traps[s.cursor];
  }

  /** While all is on time, exactly the traps that are due have been compared. */
  lemma OnTimeExact<R>(s: State<R>, lsn: nat)
    requires Kept(s) && OnTime(s)
    ensures ComparedAt(s, lsn) == if lsn <= s.lsn then AskedAt(s, lsn) else []
  {
    hide AskedAt;
    assert AskedAt(s, lsn) == With(s.traps, lsn, |s.traps|);
    WithSame(TrapsOf(s.fired), s.traps, lsn, s.cursor);
    if lsn <= s.lsn {
      WithNone(s.traps, lsn, s.cursor, |s.traps|);
    } else {
      WithNone(s.traps, lsn, 0, s.cursor);
    }
  }

  /** An accepted trap for the current or an earlier LSN stops the cursor. */
  lemma LateJams<R>(s: State<R>, t: Trap<R>)
    requires Kept(s) && OnTime(s)
    requires t.lsn <= s.lsn && |s.traps| < MAX_TRAPS
    ensures Jammed(Registered(s, t)) && Registered(s, t).fired == s.fired
  {
    hide With, Insert, Slot;
    var s' := Registered(s, t);
    AskedMore(s, s', t, t.lsn);
    OnTimeExact(s, t.lsn);
    assert ComparedAt(s', t.lsn) == ComparedAt(s, t.lsn);
    var p := Slot(s.traps, t.lsn, |s.traps|);
    assert p <= s.cursor by {
      assert forall i :: s.cursor <= i < |s.traps| ==> t.lsn < s.traps[i].lsn;
    }
    assert p < s.cursor ==> s'.traps[s.cursor] == s.traps[s.cursor - 1];
  }

  // ---------------------------------------------------------------- the theorems

  lemma {:induction false} OnTimeOrJammed<R>(actions: seq<Action<R>>, n: nat)
    requires n <= |actions|
    ensures var s := Run(actions, n); if AllFuture(s) then OnTime(s) else Jammed(s)
  {
    hide Kept, OnTime, Jammed, Forward;
    if n == 0 {
      StartOnTime<R>();
    } else {
      OnTimeOrJammed(actions, n - 1);
      RegistryKept(actions, n - 1);
      StepOnTimeOrJammed(Run(actions, n - 1), actions[n - 1]);
    }
  }

  lemma StartOnTime<R>()
    ensures OnTime(Start<R>())
  {
  }

  lemma StepOnTimeOrJammed<R>(s: State<R>, a: Action<R>)
    requires Kept(s)
    requires if AllFuture(s) then OnTime(s) else Jammed(s)
    ensures if AllFuture(Next(s, a)) then OnTime(Next(s, a)) else Jammed(Next(s, a))
    ensures !AllFuture(s) ==> !AllFuture(Next(s, a)) && Next(s, a).fired == s.fired
  {
    hide Kept, OnTime, Jammed;
    match a {
      case Register(t) =>
        if AllFuture(s) && s.lsn < t.lsn {
          InsertOnTime(s, t);
        } else if AllFuture(s) && |s.traps| < MAX_TRAPS {
          LateJams(s, t);
          assert Registered(s, t).accepted[|s.accepted|] == Noted(t, s.lsn);
        } else if !AllFuture(s) {
          StillLate(s, t);
          InsertJammed(s, t);
        }
      case _ =>
        if AllFuture(s) {
          ForwardOnTime(s);
        } else {
          ForwardJammed(s);
        }
    }
  }

  lemma StillLate<R>(s: State<R>, t: Trap<R>)
    requires !AllFuture(s)
    ensures !AllFuture(Registered(s, t))
  {
    var i :| 0 <= i < |s.accepted| && s.accepted[i].at >= s.accepted[i].trap.lsn;
    if |s.traps| < MAX_TRAPS {
      assert Registered(s, t).accepted[i] == s.accepted[i];
    }
  }

  /** For every LSN, its traps have been compared once each, in registration order, and at that very
      LSN, as soon as the engine has reached it and never before. */
  ghost predicate Exact<R>(s: State<R>) {
    && (forall lsn: nat :: ComparedAt(s, lsn) == if lsn <= s.lsn then AskedAt(s, lsn) else [])
    && (forall i :: 0 <= i < |s.fired| ==> s.fired[i].at == s.fired[i].trap.lsn)
  }

  /** A run fires every accepted trap exactly once, exactly at its LSN, if and only if every accepted
      trap was set for a future LSN. */
  lemma ExactIffFuture<R>(actions: seq<Action<R>>)
    ensures Exact(Run(actions, |actions|)) <==> AllFuture(Run(actions, |actions|))
  {
    hide Run, With, ComparedAt, AskedAt, AllFuture;
    var s := Run(actions, |actions|);
    OnTimeOrJammed(actions, |actions|);
    RegistryKept(actions, |actions|);
    if AllFuture(s) {
      forall lsn: nat
        ensures ComparedAt(s, lsn) == if lsn <= s.lsn then AskedAt(s, lsn) else []
      {
        OnTimeExact(s, lsn);
      }
    }
  }

  /** The registry around the cursor: fired before it, strictly future behind it. */
  lemma CursorSplits<R>(actions: seq<Action<R>>, n: nat, i: nat)
    requires n <= |actions|
    requires AllFuture(Run(actions, n)) && i < |Run(actions, n).traps|
    ensures var s := Run(actions, n);
            if i < s.cursor then
              i < |s.fired| && s.fired[i] == Noted(s.traps[i], s.traps[i].lsn) && s.traps[i].lsn <= s.lsn
            else s.lsn < s.traps[i].lsn
  {
    hide Run;
    OnTimeOrJammed(actions, n);
  }

  /** Once a trap has been accepted for an LSN that was not in the future, no trap ever fires again. */
  lemma {:induction false} LateSilences<R>(actions: seq<Action<R>>, m: nat, n: nat)
    requires m <= n <= |actions|
    requires !AllFuture(Run(actions, m))
    ensures !AllFuture(Run(actions, n)) && Run(actions, n).fired == Run(actions, m).fired
  {
    hide Kept, OnTime, Jammed, AllFuture, Next;
    if m == n {
    } else {
      LateSilences(actions, m, n - 1);
      OnTimeOrJammed(actions, n - 1);
      RegistryKept(actions, n - 1);
      StepOnTimeOrJammed(Run(actions, n - 1), actions[n - 1]);
    }
  }

  /** A trap set for the LSN the engine is at keeps the next one from firing. */
  lemma LateExample<R>(r: R)
    ensures var a := [Register(Trap(r, 0)), Register(Trap(r, 1)), Process];
            Run(a, 3).lsn == 1 && Run(a, 3).traps == [Trap(r, 0), Trap(r, 1)] && Run(a, 3).fired == []
  {
    var a := [Register(Trap(r, 0)), Register(Trap(r, 1)), Process];
    assert Run(a, 1) == State(0, [Trap(r, 0)], 0, [], [Noted(Trap(r, 0), 0)]);
    assert Run(a, 2).traps == [Trap(r, 0), Trap(r, 1)];
    assert Run(a, 3) == Forward(Run(a, 2));
  }

  // ---------------------------------------------------------------- the engine object

  class Engine<R> {
    var currentLsn: nat
    const traps: array<Trap<R>>
    var trapCount: nat
    var nextTrap: nat
    /** Calls made to the divergence analyser. */
    var fired: seq<Noted<R>>
    ghost var accepted: seq<Noted<R>>

    ghost predicate Valid()
      reads this
    {
      traps.Length == MAX_TRAPS && nextTrap <= trapCount <= MAX_TRAPS
    }

    ghost function View(): State<R>
      requires Valid()
      reads this, traps
    {
      State(currentLsn, traps[..trapCount], nextTrap, fired, accepted)
    }

    constructor (blank: R)
      ensures Valid() && fresh(traps) && View() == Start()
    {
      currentLsn, trapCount, nextTrap, fired, accepted := 0, 0, 0, [], [];
      traps := new Trap<R>[MAX_TRAPS](_ => Trap(blank, 0));
    }

    method SetDivergenceTrap(lsn: nat, reference: R)
      requires Valid()
      modifies this`trapCount, this`accepted, traps
      ensures Valid() && View() == Registered(old(View()), Trap(reference, lsn))
    {
      if trapCount >= MAX_TRAPS {
        return;
      }
      var t := Trap(reference, lsn);
      ghost var was := traps[..trapCount];
      traps[trapCount] := t;
      trapCount := trapCount + 1;
      accepted := accepted + [Noted(t, currentLsn)];
      assert traps[..trapCount] == Insert(was, t, |was|);
      Settle(was, t);
    }

    /** The insertion loop: the new trap moves down past every strictly later one. */
    method Settle(ghost was: seq<Trap<R>>, ghost t: Trap<R>)
      requires Valid() && trapCount == |was| + 1
      requires traps[..trapCount] == Insert(was, t, |was|)
      modifies traps
      ensures traps[..trapCount] == Insert(was, t, Slot(was, t.lsn, |was|))
    {
      hide Insert;
      var i := trapCount - 1;
      while i > 0
        invariant 0 <= i <= |was|
        invariant traps[..trapCount] == Insert(was, t, i)
        invariant Slot(was, t.lsn, |was|) == Slot(was, t.lsn, i)
      {
        assert traps[i] == traps[..trapCount][i] == t;
        assert traps[i - 1] == traps[..trapCount][i - 1] == was[i - 1];
        if traps[i].lsn < traps[i - 1].lsn {
          Exchanged(was, t, i, traps[..trapCount]);
          traps[i], traps[i - 1] := traps[i - 1], traps[i];
          assert traps[..trapCount] == Insert(was, t, i)[i := was[i - 1]][i - 1 := t];
        } else {
          break;
        }
        i := i - 1;
      }
    }

    /** The firing loop shared by both entry points. */
    method FireTraps()
      requires Valid()
      modifies this`nextTrap, this`fired
      ensures Valid() && nextTrap == Passed(View().traps, old(nextTrap), currentLsn)
      ensures fired == old(fired) + Fires(View().traps, old(nextTrap), nextTrap, currentLsn)
    {
      ghost var ts := traps[..trapCount];
      while nextTrap < trapCount && currentLsn == traps[nextTrap].lsn
        invariant Valid() && old(nextTrap) <= nextTrap && ts == traps[..trapCount]
        invariant Passed(ts, old(nextTrap), currentLsn) == Passed(ts, nextTrap, currentLsn)
        invariant fired == old(fired) + Fires(ts, old(nextTrap), nextTrap, currentLsn)
        decreases trapCount - nextTrap
      {
        assert traps[nextTrap] == ts[nextTrap];
        fired := fired + [Noted(traps[nextTrap], currentLsn)];
        nextTrap := nextTrap + 1;
      }
    }

    method Process()
      requires Valid()
      modifies this`currentLsn, this`nextTrap, this`fired
      ensures Valid() && View() == Forward(old(View()))
    {
      currentLsn := currentLsn + 1;
      FireTraps();
    }

    method ProcessTick()
      requires Valid()
      modifies this`currentLsn, this`nextTrap, this`fired
      ensures Valid() && View() == Forward(old(View()))
    {
      currentLsn := currentLsn + 1;
      FireTraps();
    }
  }
}
