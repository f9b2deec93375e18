/** The authoritative bridge (include/slabflux/bridge/authoritative_bridge.hpp:91-118) over an append-only
    journal and the LSN counter of the node context (include/slabflux/core/sf_node_ctx.hpp:83-100).

    `on_raw_frame` is cut into its steps; the process may die between any two of them, after which nothing
    more happens. A reserved slot holds arbitrary old bytes until it is written, and a frame belongs to the
    journal from the commit on. `inputs` only records the run; no step depends on it. */
module Journal {

  datatype Frame<P> = Frame(lsn: nat, payload: P)

  /** How far `on_raw_frame` has come with its current frame. */
  datatype Stage<P> =
    | Idle
    | Slotted(input: P)
    | Sequenced(input: P, lsn: nat)
    | Stamped(input: P, lsn: nat)
    | Filled(lsn: nat)
    | Journaled(lsn: nat)
    | Executed(lsn: nat)
    | Scattered(lsn: nat)
    | Crashed
  {
    /** A frame has been taken in and is not in the journal yet. */
    predicate Open() { Slotted? || Sequenced? || Stamped? || Filled? }

    /** An LSN has been drawn and is not in the journal yet. */
    predicate Drawn() { Sequenced? || Stamped? || Filled? }
  }

  datatype Action<P> = Ingest(input: P, garbage: Frame<P>) | Advance | Crash

  /** The first LSN the context hands out, and the engine's step. */
  datatype Config<!P, !D> = Config(first: nat, apply: (D, P, nat) -> D, initial: D)

  datatype State<P, D> = State(
    nextLsn: nat,
    slot: Frame<P>,
    journal: seq<Frame<P>>,
    engine: D,
    executed: seq<Frame<P>>,
    broadcasts: seq<nat>,
    committed: nat,
    stage: Stage<P>,
    inputs: seq<P>)

  function Start<P, D>(c: Config<P, D>, garbage: Frame<P>): State<P, D> {
    State(c.first, garbage, [], c.initial, [], [], 0, Idle, [])
  }

  function ShouldBroadcast(lsn: nat): bool { lsn % 64 == 0 }

  /** The next step of `on_raw_frame`. */
  function Step<P, D>(c: Config<P, D>, s: State<P, D>): State<P, D> {
    match s.stage
    case Idle => s
    case Slotted(input) => s.(nextLsn := s.nextLsn + 1, stage := Sequenced(input, s.nextLsn))
    case Sequenced(input, lsn) => s.(slot := s.slot.(lsn := lsn), stage := Stamped(input, lsn))
    case Stamped(input, lsn) => s.(slot := s.slot.(payload := input), stage := Filled(lsn))
    case Filled(lsn) => s.(journal := s.journal + [s.slot], stage := Journaled(lsn))
    case Journaled(lsn) =>
      s.(engine := c.apply(s.engine, s.slot.payload, lsn), executed := s.executed + [Frame(lsn, s.slot.payload)],
         stage := Executed(lsn))
    case Executed(lsn) =>
      s.(broadcasts := if ShouldBroadcast(lsn) then s.broadcasts + [lsn] else s.broadcasts, stage := Scattered(lsn))
    case Scattered(lsn) => s.(committed := lsn, stage := Idle)
    case Crashed => s
  }

  /** One step of the run; an action that is not possible leaves the state as it is. */
  function Next<P, D>(c: Config<P, D>, s: State<P, D>, a: Action<P>): State<P, D> {
    match a
    case Ingest(input, garbage) =>
      if s.stage.Idle? then s.(slot := garbage, stage := Slotted(input), inputs := s.inputs + [input]) else s
    case Advance => Step(c, s)
    case Crash => s.(stage := Crashed)
  }

  function Run<P, D>(c: Config<P, D>, garbage: Frame<P>, actions: seq<Action<P>>, n: nat): State<P, D>
    requires n <= |actions|
  {
    if n == 0 then Start(c, garbage) else Next(c, Run(c, garbage, actions, n - 1), actions[n - 1])
  }

  // ---------------------------------------------------------------- the invariant

  /** The engine after the first `n` frames. */
  function Folded<P, D>(c: Config<P, D>, frames: seq<Frame<P>>, n: nat): D
    requires n <= |frames|
  {
    if n == 0 then c.initial else c.apply(Folded(c, frames, n - 1), frames[n - 1].payload, frames[n - 1].lsn)
  }

  /** The LSNs among the first `n` frames that are due for broadcast. */
  function Due<P>(frames: seq<Frame<P>>, n: nat): seq<nat>
    requires n <= |frames|
  {
    if n == 0 then [] else Due(frames, n - 1) + if ShouldBroadcast(frames[n - 1].lsn) then [frames[n - 1].lsn] else []
  }

  /** Journaled frames carry consecutive LSNs and the inputs in the order they came. */
  ghost predicate JournalOk<P, D>(c: Config<P, D>, s: State<P, D>) {
    && |s.journal| <= |s.inputs|
    && (forall i :: 0 <= i < |s.journal| ==> s.journal[i] == Frame(c.first + i, s.inputs[i]))
  }

  /** What was executed is a prefix of the journal, at most one frame short of it. */
  ghost predicate ExecutedOk<P, D(!new)>(c: Config<P, D>, s: State<P, D>) {
    && |s.journal| - 1 <= |s.executed| <= |s.journal|
    && s.executed == s.journal[..|s.executed|]
    && s.engine == Folded(c, s.executed, |s.executed|)
  }

  ghost predicate StageOk<P, D>(c: Config<P, D>, s: State<P, D>) {
    && (s.stage.Crashed? ||
        (&& |s.inputs| == |s.journal| + (if s.stage.Open() then 1 else 0)
         && s.nextLsn == c.first + |s.journal| + (if s.stage.Drawn() then 1 else 0)
         && |s.executed| == |s.journal| - (if s.stage.Journaled? then 1 else 0)))
    && (s.stage.Slotted? ==> s.stage.input == s.inputs[|s.journal|])
    && (s.stage.Sequenced? ==> s.stage.input == s.inputs[|s.journal|] && s.stage.lsn == c.first + |s.journal|)
    && (s.stage.Stamped? ==>
          s.stage.input == s.inputs[|s.journal|] && s.slot.lsn == s.stage.lsn == c.first + |s.journal|)
    && (s.stage.Filled? ==> s.stage.lsn == c.first + |s.journal| && s.slot == Frame(s.stage.lsn, s.inputs[|s.journal|]))
    && (s.stage.Journaled? ==>
          s.stage.lsn == s.slot.lsn && |s.journal| > 0 && s.journal[|s.journal| - 1] == s.slot)
    && (s.stage.Executed? || s.stage.Scattered? ==>
          |s.journal| > 0 && s.journal[|s.journal| - 1].lsn == s.stage.lsn)
  }

  /** Every executed frame that is due has been broadcast once, in order, save for the frame at work. */
  ghost predicate BroadcastOk<P, D>(s: State<P, D>) {
    && (!s.stage.Crashed? && !s.stage.Executed? ==> s.broadcasts == Due(s.executed, |s.executed|))
    && (s.stage.Executed? ==> |s.executed| > 0 && s.broadcasts == Due(s.executed, |s.executed| - 1))
    && (s.stage.Crashed? ==>
          || s.broadcasts == Due(s.executed, |s.executed|)
          || (|s.executed| > 0 && s.broadcasts == Due(s.executed, |s.executed| - 1)))
    && (s.stage.Idle? && |s.journal| > 0 ==> s.committed == s.journal[|s.journal| - 1].lsn)
  }

  ghost predicate Inv<P, D(!new)>(c: Config<P, D>, s: State<P, D>) {
    JournalOk(c, s) && ExecutedOk(c, s) && StageOk(c, s) && BroadcastOk(s)
  }

  lemma {:induction false} FoldedSame<P, D>(c: Config<P, D>, a: seq<Frame<P>>, b: seq<Frame<P>>, n: nat)
    requires n <= |a| && n <= |b| && forall i :: 0 <= i < n ==> a[i] == b[i]
    ensures Folded(c, a, n) == Folded(c, b, n)
  {
    if n == 0 {
    } else {
      FoldedSame(c, a, b, n - 1);
    }
  }

  lemma {:induction false} DueSame<P>(a: seq<Frame<P>>, b: seq<Frame<P>>, n: nat)
    requires n <= |a| && n <= |b| && forall i :: 0 <= i < n ==> a[i] == b[i]
    ensures Due(a, n) == Due(b, n)
  {
    if n == 0 {
    } else {
      DueSame(a, b, n - 1);
    }
  }

  lemma CommitKeeps<P, D(!new)>(c: Config<P, D>, s: State<P, D>)
    requires Inv(c, s) && s.stage.Filled?
    ensures Inv(c, Step(c, s))
  {
    hide Folded, Due;
    var s' := Step(c, s);
    assert s'.journal[..|s.executed|] == s.journal[..|s.executed|];
  }

  lemma ExecuteKeeps<P, D(!new)>(c: Config<P, D>, s: State<P, D>)
    requires Inv(c, s) && s.stage.Journaled?
    ensures Inv(c, Step(c, s))
  {
    hide Due;
    var s', n := Step(c, s), |s.executed|;
    FoldedSame(c, s.executed, s'.executed, n);
    DueSame(s.executed, s'.executed, n);
    assert s'.executed == s.journal[..n + 1];
  }

  lemma StepKeeps<P, D(!new)>(c: Config<P, D>, s: State<P, D>)
    requires Inv(c, s)
    ensures Inv(c, Step(c, s))
  {
    if s.stage.Filled? {
      CommitKeeps(c, s);
    } else if s.stage.Journaled? {
      ExecuteKeeps(c, s);
    } else if s.stage.Executed? {
      hide Folded, JournalOk;
    } else {
      hide Folded, Due;
    }
  }

  lemma NextKeeps<P, D(!new)>(c: Config<P, D>, s: State<P, D>, a: Action<P>)
    requires Inv(c, s)
    ensures Inv(c, Next(c, s, a))
  {
    if a.Advance? {
      StepKeeps(c, s);
    } else {
      hide Folded, Due;
    }
  }

  lemma {:induction false} RunKeeps<P, D(!new)>(c: Config<P, D>, garbage: Frame<P>, actions: seq<Action<P>>, n: nat)
    requires n <= |actions|
    ensures Inv(c, Run(c, garbage, actions, n))
  {
    hide Inv, Next;
    if n == 0 {
      StartOk(c, garbage);
    } else {
      RunKeeps(c, garbage, actions, n - 1);
      NextKeeps(c, Run(c, garbage, actions, n - 1), actions[n - 1]);
    }
  }

  lemma StartOk<P, D(!new)>(c: Config<P, D>, garbage: Frame<P>)
    ensures Inv(c, Start(c, garbage))
  {
  }

  // ---------------------------------------------------------------- the theorems

  /** Wherever the process is, or died: journaled LSNs are consecutive and journaled payloads are the
      inputs in order, what was executed is a prefix of the journal, at most one frame is journaled and not
      executed, and the engine is the executed frames folded in order. */
  lemma WriteAhead<P, D(!new)>(c: Config<P, D>, garbage: Frame<P>, actions: seq<Action<P>>, n: nat)
    requires n <= |actions|
    ensures var s := Run(c, garbage, actions, n);
            && |s.journal| <= |s.inputs|
            && (forall i :: 0 <= i < |s.journal| ==> s.journal[i] == Frame(c.first + i, s.inputs[i]))
            && s.executed <= s.journal && |s.journal| <= |s.executed| + 1
            && s.engine == Folded(c, s.executed, |s.executed|)
  {
    hide Run, Folded, BroadcastOk, StageOk;
    RunKeeps(c, garbage, actions, n);
  }

  /** Between frames everything taken in is journaled, executed, marked as processed and, every 64 LSNs,
      broadcast. */
  lemma BetweenFrames<P, D(!new)>(c: Config<P, D>, garbage: Frame<P>, actions: seq<Action<P>>, n: nat)
    requires n <= |actions| && Run(c, garbage, actions, n).stage.Idle?
    ensures var s := Run(c, garbage, actions, n);
            && |s.journal| == |s.inputs| && s.executed == s.journal
            && s.nextLsn == c.first + |s.inputs|
            && (s.inputs != [] ==> s.committed == c.first + |s.inputs| - 1)
            && s.broadcasts == Due(s.journal, |s.journal|)
  {
    hide Run, Folded, Due;
    RunKeeps(c, garbage, actions, n);
  }

  lemma {:induction false} DueHas<P>(frames: seq<Frame<P>>, first: nat, n: nat, l: nat)
    requires n <= |frames| && forall i :: 0 <= i < n ==> frames[i].lsn == first + i
    ensures l in Due(frames, n) <==> first <= l < first + n && l % 64 == 0
  {
    if n == 0 {
    } else {
      DueHas(frames, first, n - 1, l);
    }
  }

  predicate Increasing(xs: seq<nat>) { forall i, j :: 0 <= i < j < |xs| ==> xs[i] < xs[j] }

  lemma {:induction false} DueIncreases<P>(frames: seq<Frame<P>>, first: nat, n: nat)
    requires n <= |frames| && forall i :: 0 <= i < n ==> frames[i].lsn == first + i
    ensures Increasing(Due(frames, n))
  {
    if n == 0 {
    } else {
      DueIncreases(frames, first, n - 1);
      var due := Due(frames, n - 1);
      forall i | 0 <= i < |due| ensures due[i] < first + n - 1 {
        DueHas(frames, first, n - 1, due[i]);
      }
    }
  }

  /** Between frames the broadcasts are exactly the LSNs handed out that are multiples of 64, in order. */
  lemma {:induction false} BroadcastExactly<P, D(!new)>(
    c: Config<P, D>, garbage: Frame<P>, actions: seq<Action<P>>, n: nat)
    requires n <= |actions| && Run(c, garbage, actions, n).stage.Idle?
    ensures var s := Run(c, garbage, actions, n);
            && (forall l :: l in s.broadcasts <==> c.first <= l < c.first + |s.inputs| && l % 64 == 0)
            && Increasing(s.broadcasts)
  {
    hide Run, Due, Folded;
    WriteAhead(c, garbage, actions, n);
    BetweenFrames(c, garbage, actions, n);
    var s := Run(c, garbage, actions, n);
    DueIncreases(s.journal, c.first, |s.journal|);
    forall l ensures l in s.broadcasts <==> c.first <= l < c.first + |s.inputs| && l % 64 == 0 {
      if l >= 0 { DueHas(s.journal, c.first, |s.journal|, l); }
    }
  }

  // ---------------------------------------------------------------- a frame is seen through

  /** The advances a stage still needs. */
  function Ahead<P>(stage: Stage<P>): nat {
    match stage
    case Slotted(_) => 7
    case Sequenced(_, _) => 6
    case Stamped(_, _) => 5
    case Filled(_) => 4
    case Journaled(_) => 3
    case Executed(_) => 2
    case Scattered(_) => 1
    case _ => 0
  }

  predicate NoCrash<P>(actions: seq<Action<P>>, m: nat, n: nat)
    requires n <= |actions|
  {
    forall i :: m <= i < n ==> !actions[i].Crash?
  }

  function Advances<P>(actions: seq<Action<P>>, m: nat, n: nat): nat
    requires n <= |actions|
    decreases n
  {
    if n <= m then 0 else Advances(actions, m, n - 1) + if actions[n - 1].Advance? then 1 else 0
  }

  /** While a frame is at work, every advance brings it one step on and nothing else does. */
  lemma {:induction false} FrameMoves<P, D>(c: Config<P, D>, garbage: Frame<P>, actions: seq<Action<P>>, m: nat, n: nat)
    requires m < n <= |actions| && actions[m].Ingest? && Run(c, garbage, actions, m).stage.Idle?
    requires NoCrash(actions, m, n) && Advances(actions, m + 1, n) <= 7
    ensures var s := Run(c, garbage, actions, n);
            (Ahead(s.stage) == 7 - Advances(actions, m + 1, n) && !s.stage.Crashed?) ||
            (n > m + 1 && Advances(actions, m + 1, n - 1) == 7)
    decreases n
  {
    if n == m + 1 {
    } else {
      FrameMoves(c, garbage, actions, m, n - 1);
    }
  }

  /** Seven advances after a frame was taken in, whatever is offered in between and unless the process dies, the
      bridge is idle again: the frame is journaled, executed and marked as processed under the next LSN. */
  lemma {:induction false} FrameCompletes<P, D(!new)>(
    c: Config<P, D>, garbage: Frame<P>, actions: seq<Action<P>>, m: nat, n: nat)
    requires m < n <= |actions| && actions[m].Ingest? && Run(c, garbage, actions, m).stage.Idle?
    requires NoCrash(actions, m, n) && actions[n - 1].Advance? && Advances(actions, m + 1, n) == 7
    ensures var s, s' := Run(c, garbage, actions, m), Run(c, garbage, actions, n);
            && s'.stage.Idle? && s'.inputs == s.inputs + [actions[m].input]
            && s'.journal == s.journal + [Frame(s.nextLsn, actions[m].input)] && s'.executed == s'.journal
            && s'.committed == s.nextLsn && s'.nextLsn == s.nextLsn + 1
  {
    hide Run, Folded, Due, Inv;
    FrameMoves(c, garbage, actions, m, n);
    InputsGrow(c, garbage, actions, m, n);
    WriteAhead(c, garbage, actions, m);
    WriteAhead(c, garbage, actions, n);
    BetweenFrames(c, garbage, actions, m);
    var s, s' := Run(c, garbage, actions, m), Run(c, garbage, actions, n);
    assert s'.stage.Idle?;
    BetweenFrames(c, garbage, actions, n);
    assert s'.journal == s.journal + [Frame(s.nextLsn, actions[m].input)];
  }

  lemma {:induction false} InputsGrow<P, D>(c: Config<P, D>, garbage: Frame<P>, actions: seq<Action<P>>, m: nat, n: nat)
    requires m < n <= |actions| && actions[m].Ingest? && Run(c, garbage, actions, m).stage.Idle?
    requires NoCrash(actions, m, n) && Advances(actions, m + 1, n) <= 7
    requires n > m + 1 ==> Advances(actions, m + 1, n - 1) < 7
    ensures Run(c, garbage, actions, n).inputs == Run(c, garbage, actions, m).inputs + [actions[m].input]
    decreases n
  {
    if n == m + 1 {
    } else {
      InputsGrow(c, garbage, actions, m, n - 1);
      FrameMoves(c, garbage, actions, m, n - 1);
    }
  }

  // ---------------------------------------------------------------- the bridge object

  class AuthoritativeBridge<P, D> {
    const config: Config<P, D>
    var nextLsn: nat
    var journal: seq<Frame<P>>
    var engine: D
    var broadcasts: seq<nat>
    var committed: nat

    constructor (c: Config<P, D>)
      ensures config == c && nextLsn == c.first && journal == [] && engine == c.initial && broadcasts == []
    {
      config, nextLsn, journal, engine, broadcasts, committed := c, c.first, [], c.initial, [], 0;
    }

    /** One undisturbed frame. A journal slot is available: the source does not check for a null one. */
    method OnRawFrame(input: P)
      modifies this
      ensures journal == old(journal) + [Frame(old(nextLsn), input)]
      ensures nextLsn == old(nextLsn) + 1 && committed == old(nextLsn)
      ensures engine == config.apply(old(engine), input, old(nextLsn))
      ensures broadcasts == old(broadcasts) + if ShouldBroadcast(old(nextLsn)) then [old(nextLsn)] else []
    {
      var lsn := nextLsn;
      nextLsn := nextLsn + 1;
      var frame := Frame(lsn, input);
      journal := journal + [frame];
      engine := config.apply(engine, frame.payload, lsn);
      if ShouldBroadcast(lsn) {
        broadcasts := broadcasts + [lsn];
      }
      committed := lsn;
    }
  }
}
