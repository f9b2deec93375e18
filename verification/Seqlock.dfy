/** Publication of the wide state under a sequence word (include/slabflux/bridge/bridge_sync.hpp:110-172)
    and its single-writer form (include/slabflux/compute/timing_invariant.hpp:84-116).

    Any number of threads publish and read at the granularity of one shared-memory access per
    step, interleaved in any order on sequentially consistent memory. The logic that rewrites the
    positions is an arbitrary function; while it runs it may write anything into any position.
    The fields `holder`, `log`, `hist` and `served` only record the run; no step depends on them. */
module Seqlock {
  import opened Context

  /** The state left by a completed publish. */
  datatype Snap<V> = Snap(cells: seq<V>, lsn: nat)

  datatype Entry<In> = Entry(input: In, lsn: nat)

  /** A read that returned true: who, what it delivered, and how many publishes were complete. */
  datatype Read<V> = Read(tid: nat, snap: Snap<V>, completed: int)

  /** Where a thread is. The first five are the stages of `publish`, the last two of `try_read_wide`. */
  datatype Stage<In, V> =
    | Idle
    | Reserved(input: In, lsn: nat)
    | Loaded(input: In, lsn: nat, seen: nat)
    | Writing(input: In, lsn: nat, seen: nat, found: seq<V>)
    | Written(input: In, lsn: nat, seen: nat)
    | Stamped(input: In, lsn: nat, seen: nat)
    | Copying(first: nat, out: seq<V>)
    | Copied(first: nat, out: seq<V>, lsn: nat)
  {
    /** Between taking the word and giving it back. */
    predicate Critical() { Writing? || Written? || Stamped? }
  }

  datatype Action<In, V> =
    | Publish(tid: nat, input: In)
    | StartRead(tid: nat)
    | Scribble(tid: nat, at: nat, value: V)
    | Advance(tid: nat)

  datatype Config<!In, !V> = Config(process: (In, nat, seq<V>) -> seq<V>, initial: seq<V>, threads: nat)

  datatype State<In, V> = State(
    sequence: nat,
    cells: seq<V>,
    lastLsn: nat,
    counter: nat,
    threads: seq<Stage<In, V>>,
    holder: int,
    log: seq<Entry<In>>,
    hist: seq<Snap<V>>,
    served: seq<Read<V>>)

  function Start<In, V>(c: Config<In, V>): State<In, V> {
    State(0, c.initial, 0, 0, seq(c.threads, i => Idle), -1, [], [Snap(c.initial, 0)], [])
  }

  function At<In, V>(s: State<In, V>, t: nat, stage: Stage<In, V>): State<In, V>
    requires t < |s.threads|
  {
    s.(threads := s.threads[t := stage])
  }

  /** The next access of thread `t` inside `publish`. */
  function PublishStep<In, V(==)>(c: Config<In, V>, s: State<In, V>, t: nat): State<In, V>
    requires t < |s.threads|
  {
    match s.threads[t]
    case Reserved(input, lsn) =>
      if s.sequence % 2 == 0 then At(s, t, Loaded(input, lsn, s.sequence)) else s
    case Loaded(input, lsn, seen) =>
      if s.sequence == seen then
        At(s, t, Writing(input, lsn, seen, s.cells))
        .(sequence := seen + 1, holder := t, log := s.log + [Entry(input, lsn)])
      else At(s, t, Reserved(input, lsn))
    case Writing(input, lsn, seen, found) =>
      // The logic returns when the positions are what it computes from those it found.
      if s.cells == c.process(input, lsn, found) then At(s, t, Written(input, lsn, seen)) else s
    case Written(input, lsn, seen) => At(s, t, Stamped(input, lsn, seen)).(lastLsn := lsn)
    case Stamped(input, lsn, seen) =>
      At(s, t, Idle).(sequence := seen + 2, holder := -1, hist := s.hist + [Snap(s.cells, s.lastLsn)])
    case _ => s
  }

  /** The next access of thread `t` inside `try_read_wide`. */
  function ReadStep<In, V>(s: State<In, V>, t: nat): State<In, V>
    requires t < |s.threads|
  {
    match s.threads[t]
    case Copying(first, out) =>
      if |out| < |s.cells| then At(s, t, Copying(first, out + [s.cells[|out|]]))
      else At(s, t, Copied(first, out, s.lastLsn))
    case Copied(first, out, lsn) =>
      if s.sequence == first then
        At(s, t, Idle).(served := s.served + [Read(t, Snap(out, lsn), |s.hist| - 1)])
      else At(s, t, Idle)
    case _ => s
  }

  /** One step of the run; an action that is not possible leaves the state as it is. */
  function Next<In, V(==)>(c: Config<In, V>, s: State<In, V>, a: Action<In, V>): State<In, V> {
    if a.tid >= |s.threads| then s
    else match a
      case Publish(t, input) =>
        if s.threads[t].Idle? then At(s, t, Reserved(input, s.counter)).(counter := s.counter + 1) else s
      case StartRead(t) =>
        if s.threads[t].Idle? && s.sequence % 2 == 0 then At(s, t, Copying(s.sequence, [])) else s
      case Scribble(t, at, value) =>
        if s.threads[t].Writing? && at < |s.cells| then s.(cells := s.cells[at := value]) else s
      case Advance(t) =>
        if s.threads[t].Copying? || s.threads[t].Copied? then ReadStep(s, t) else PublishStep(c, s, t)
  }

  /** The state after the first `n` actions of a run. */
  function Run<In, V(==)>(c: Config<In, V>, actions: seq<Action<In, V>>, n: nat): State<In, V>
    requires n <= |actions|
  {
    if n == 0 then Start(c) else Next(c, Run(c, actions, n - 1), actions[n - 1])
  }

  // ---------------------------------------------------------------- the invariant

  ghost function Latest<In, V>(s: State<In, V>): Snap<V>
    requires s.hist != []
  {
    s.hist[|s.hist| - 1]
  }

  /** The recorded states are the logic folded over the inputs in the order the word was taken. */
  ghost predicate Folded<In, V>(c: Config<In, V>, log: seq<Entry<In>>, hist: seq<Snap<V>>) {
    0 < |hist| <= |log| + 1 && hist[0] == Snap(c.initial, 0) &&
    forall j :: 0 < j < |hist| ==>
      hist[j] == Snap(c.process(log[j - 1].input, log[j - 1].lsn, hist[j - 1].cells), log[j - 1].lsn)
  }

  /** The word counts the completed publishes twice and is odd exactly while one is under way. */
  ghost predicate WordOk<In, V>(s: State<In, V>) {
    s.hist != [] && -1 <= s.holder < |s.threads| &&
    s.sequence == 2 * (|s.hist| - 1) + (if s.holder == -1 then 0 else 1) &&
    |s.log| == |s.hist| - (if s.holder == -1 then 1 else 0) &&
    (s.holder == -1 ==> Snap(s.cells, s.lastLsn) == Latest(s)) &&
    |s.cells| == |Latest(s).cells|
  }

  /** At most one thread is inside its critical section: the recorded holder. */
  ghost predicate Exclusive<In, V>(s: State<In, V>) {
    forall t :: 0 <= t < |s.threads| ==> (s.threads[t].Critical() <==> s.holder == t)
  }

  ghost predicate StageOk<In, V>(c: Config<In, V>, s: State<In, V>, stage: Stage<In, V>)
    requires WordOk(s)
  {
    match stage
    case Loaded(_, _, seen) => seen % 2 == 0
    case Writing(input, lsn, seen, found) =>
      seen + 1 == s.sequence && s.log != [] && s.log[|s.log| - 1] == Entry(input, lsn) && found == Latest(s).cells
    case Written(input, lsn, seen) =>
      seen + 1 == s.sequence && s.log != [] && s.log[|s.log| - 1] == Entry(input, lsn) &&
      s.cells == c.process(input, lsn, Latest(s).cells)
    case Stamped(input, lsn, seen) =>
      seen + 1 == s.sequence && s.log != [] && s.log[|s.log| - 1] == Entry(input, lsn) &&
      s.cells == c.process(input, lsn, Latest(s).cells) && s.lastLsn == lsn
    case Copying(first, out) =>
      first % 2 == 0 && first <= s.sequence && |out| <= |s.cells| &&
      (first == s.sequence ==> out == Latest(s).cells[..|out|])
    case Copied(first, out, lsn) =>
      first % 2 == 0 && first <= s.sequence && (first == s.sequence ==> Snap(out, lsn) == Latest(s))
    case _ => true
  }

  /** Every read that returned true delivered the state of one completed publish, and never an
      older one than a read before it. */
  ghost predicate ReadsOk<V>(served: seq<Read<V>>, hist: seq<Snap<V>>) {
    (forall i :: 0 <= i < |served| ==>
       0 <= served[i].completed < |hist| && served[i].snap == hist[served[i].completed]) &&
    (forall i, j :: 0 <= i < j < |served| ==> served[i].completed <= served[j].completed)
  }

  ghost predicate Inv<In, V>(c: Config<In, V>, s: State<In, V>) {
    WordOk(s) && Exclusive(s) && Folded(c, s.log, s.hist) && ReadsOk(s.served, s.hist) && |s.threads| == c.threads &&
    (forall t :: 0 <= t < |s.threads| ==> StageOk(c, s, s.threads[t]))
  }

  lemma StartInv<In, V>(c: Config<In, V>)
    ensures Inv(c, Start(c))
  {
  }

  lemma ReserveKeeps<In, V>(c: Config<In, V>, s: State<In, V>, t: nat, input: In)
    requires Inv(c, s) && t < |s.threads| && s.threads[t].Idle?
    ensures Inv(c, At(s, t, Reserved(input, s.counter)).(counter := s.counter + 1))
  {
  }

  lemma StartReadKeeps<In, V>(c: Config<In, V>, s: State<In, V>, t: nat)
    requires Inv(c, s) && t < |s.threads| && s.threads[t].Idle? && s.sequence % 2 == 0
    ensures Inv(c, At(s, t, Copying(s.sequence, [])))
  {
  }

  lemma ScribbleKeeps<In, V>(c: Config<In, V>, s: State<In, V>, t: nat, at: nat, value: V)
    requires Inv(c, s) && t < |s.threads| && s.threads[t].Writing? && at < |s.cells|
    ensures Inv(c, s.(cells := s.cells[at := value]))
  {
    assert s.holder == t;
  }

  lemma CopyKeeps<In, V>(c: Config<In, V>, s: State<In, V>, t: nat)
    requires Inv(c, s) && t < |s.threads| && s.threads[t].Copying?
    ensures Inv(c, ReadStep(s, t))
  {
    hide Folded, ReadsOk;
    assert StageOk(c, s, s.threads[t]);
    var out := s.threads[t].out;
    if s.threads[t].first == s.sequence && |out| < |s.cells| {
      assert out + [s.cells[|out|]] == Latest(s).cells[..|out| + 1];
    }
  }

  lemma ServeKeeps<In, V>(c: Config<In, V>, s: State<In, V>, t: nat)
    requires Inv(c, s) && t < |s.threads| && s.threads[t].Copied?
    ensures Inv(c, ReadStep(s, t))
  {
    hide Folded;
    assert StageOk(c, s, s.threads[t]);
  }

  lemma WaitKeeps<In, V>(c: Config<In, V>, s: State<In, V>, t: nat)
    requires Inv(c, s) && t < |s.threads| && (s.threads[t].Reserved? || s.threads[t].Loaded?)
    ensures Inv(c, PublishStep(c, s, t))
  {
    hide ReadsOk;
    assert StageOk(c, s, s.threads[t]);
  }

  lemma WriteKeeps<In, V>(c: Config<In, V>, s: State<In, V>, t: nat)
    requires Inv(c, s) && t < |s.threads| && (s.threads[t].Writing? || s.threads[t].Written?)
    ensures Inv(c, PublishStep(c, s, t))
  {
    hide Folded, ReadsOk;
    assert StageOk(c, s, s.threads[t]);
  }

  lemma ReleaseKeeps<In, V>(c: Config<In, V>, s: State<In, V>, t: nat)
    requires Inv(c, s) && t < |s.threads| && s.threads[t].Stamped?
    ensures Inv(c, PublishStep(c, s, t))
  {
    assert StageOk(c, s, s.threads[t]);
  }

  lemma AdvanceKeeps<In, V>(c: Config<In, V>, s: State<In, V>, t: nat)
    requires Inv(c, s) && t < |s.threads|
    ensures Inv(c, Next(c, s, Advance(t)))
  {
    hide Inv, At;
    match s.threads[t]
    case Copying(_, _) => CopyKeeps(c, s, t);
    case Copied(_, _, _) => ServeKeeps(c, s, t);
    case Reserved(_, _) => WaitKeeps(c, s, t);
    case Loaded(_, _, _) => WaitKeeps(c, s, t);
    case Writing(_, _, _, _) => WriteKeeps(c, s, t);
    case Written(_, _, _) => WriteKeeps(c, s, t);
    case Stamped(_, _, _) => ReleaseKeeps(c, s, t);
    case Idle =>
  }

  /** Every step of every thread keeps the invariant. */
  lemma NextKeeps<In, V>(c: Config<In, V>, s: State<In, V>, a: Action<In, V>)
    requires Inv(c, s)
    ensures Inv(c, Next(c, s, a))
  {
    hide Inv, PublishStep, ReadStep;
    if a.tid < |s.threads| {
      match a
      case Publish(t, input) => if s.threads[t].Idle? { ReserveKeeps(c, s, t, input); }
      case StartRead(t) => if s.threads[t].Idle? && s.sequence % 2 == 0 { StartReadKeeps(c, s, t); }
      case Scribble(t, at, value) => if s.threads[t].Writing? && at < |s.cells| { ScribbleKeeps(c, s, t, at, value); }
      case Advance(t) => AdvanceKeeps(c, s, t);
    }
  }

  lemma {:induction false} RunKeeps<In, V>(c: Config<In, V>, actions: seq<Action<In, V>>, n: nat)
    requires n <= |actions|
    ensures Inv(c, Run(c, actions, n))
  {
    hide Inv, Next;
    if n == 0 { StartInv(c); }
    else {
      RunKeeps(c, actions, n - 1);
      NextKeeps(c, Run(c, actions, n - 1), actions[n - 1]);
    }
  }

  // ---------------------------------------------------------------- the theorems

  /** The logic folded over the first `k` inputs, in the order in which the word was taken. */
  ghost function Folding<In, V>(c: Config<In, V>, log: seq<Entry<In>>, k: nat): Snap<V>
    requires k <= |log|
  {
    if k == 0 then Snap(c.initial, 0)
    else Snap(c.process(log[k - 1].input, log[k - 1].lsn, Folding(c, log, k - 1).cells), log[k - 1].lsn)
  }

  lemma {:induction false} FoldedIs<In, V>(c: Config<In, V>, log: seq<Entry<In>>, hist: seq<Snap<V>>, k: nat)
    requires Folded(c, log, hist) && k < |hist|
    ensures hist[k] == Folding(c, log, k)
  {
    if k == 0 {
    } else {
      FoldedIs(c, log, hist, k - 1);
    }
  }

  /** In every run, two threads are never both between taking the word and giving it back. */
  lemma MutualExclusion<In, V>(c: Config<In, V>, actions: seq<Action<In, V>>, n: nat, t: nat, u: nat)
    requires n <= |actions| && t < c.threads && u < c.threads
    ensures var s := Run(c, actions, n);
            |s.threads| == c.threads && (s.threads[t].Critical() && s.threads[u].Critical() ==> t == u)
  {
    hide Run;
    RunKeeps(c, actions, n);
  }

  /** In every run, the positions outside a critical section are the logic folded over the inputs in
      the order in which the word was taken, and the word is even exactly then. */
  lemma PositionsFolded<In, V>(c: Config<In, V>, actions: seq<Action<In, V>>, n: nat)
    requires n <= |actions|
    ensures var s := Run(c, actions, n);
            s.sequence % 2 == 0 ==>
              s.sequence == 2 * |s.log| && Snap(s.cells, s.lastLsn) == Folding(c, s.log, |s.log|)
  {
    hide Run;
    RunKeeps(c, actions, n);
    var s := Run(c, actions, n);
    FoldedIs(c, s.log, s.hist, |s.hist| - 1);
  }

  /** In every run, every read that returned true delivered exactly the positions and the LSN left by
      one completed publish, or the initial ones, and no later read delivered older ones. */
  lemma NoTornRead<In, V>(c: Config<In, V>, actions: seq<Action<In, V>>, n: nat, i: nat, j: nat)
    requires n <= |actions| && i <= j < |Run(c, actions, n).served|
    ensures var s := Run(c, actions, n);
            0 <= s.served[i].completed <= s.served[j].completed <= |s.log| &&
            s.served[i].snap == Folding(c, s.log, s.served[i].completed)
  {
    hide Run;
    RunKeeps(c, actions, n);
    var s := Run(c, actions, n);
    FoldedIs(c, s.log, s.hist, s.served[i].completed);
  }

  /** A read that returns true is linearized at its last access: it delivers the state that is
      current at that moment, with every publish so far complete. */
  lemma ReadIsCurrent<In, V>(c: Config<In, V>, actions: seq<Action<In, V>>, n: nat)
    requires n < |actions| && |Run(c, actions, n + 1).served| > |Run(c, actions, n).served|
    ensures var s, s' := Run(c, actions, n), Run(c, actions, n + 1);
            var read := s'.served[|s'.served| - 1];
            s'.served == s.served + [read] && read.tid == actions[n].tid &&
            read.snap == Snap(s.cells, s.lastLsn) && read.completed == |s.log|
  {
    RunKeeps(c, actions, n);
    var s := Run(c, actions, n);
    var t := actions[n].tid;
    ServingStep(c, s, actions[n]);
    assert StageOk(c, s, s.threads[t]);
  }

  lemma ServingStep<In, V>(c: Config<In, V>, s: State<In, V>, a: Action<In, V>)
    requires |Next(c, s, a).served| > |s.served|
    ensures a.Advance? && a.tid < |s.threads| && s.threads[a.tid].Copied? && s.threads[a.tid].first == s.sequence
    ensures var stage := s.threads[a.tid];
            Next(c, s, a).served == s.served + [Read(a.tid, Snap(stage.out, stage.lsn), |s.hist| - 1)]
  {
  }

  // ---------------------------------------------------------------- which reads succeed

  /** How many of the actions from `from` up to `to` are accesses of thread `t`. */
  function Accesses<In(==), V(==)>(actions: seq<Action<In, V>>, t: nat, from: nat, to: nat): nat
    requires from <= to <= |actions|
  {
    if from == to then 0 else Accesses(actions, t, from, to - 1) + if actions[to - 1] == Advance(t) then 1 else 0
  }

  lemma SizeKept<In, V>(c: Config<In, V>, s: State<In, V>, a: Action<In, V>)
    ensures |Next(c, s, a).cells| == |s.cells| && |Next(c, s, a).threads| == |s.threads|
  {
  }

  lemma {:induction false} RunSize<In, V>(c: Config<In, V>, actions: seq<Action<In, V>>, n: nat)
    requires n <= |actions|
    ensures |Run(c, actions, n).cells| == |c.initial| && |Run(c, actions, n).threads| == c.threads
  {
    hide Next;
    if n == 0 {
    } else {
      RunSize(c, actions, n - 1);
      SizeKept(c, Run(c, actions, n - 1), actions[n - 1]);
    }
  }

  /** A read that found the word `first` and has made `k` accesses since, of a block of `size` positions. */
  predicate Reads<In, V>(stage: Stage<In, V>, first: nat, k: nat, size: nat) {
    if k <= size then stage.Copying? && stage.first == first && |stage.out| == k
    else k == size + 1 && stage.Copied? && stage.first == first
  }

  lemma ReadMoves<In, V>(c: Config<In, V>, s: State<In, V>, a: Action<In, V>, t: nat, first: nat, k: nat)
    requires t < |s.threads| && Reads(s.threads[t], first, k, |s.cells|)
    ensures a != Advance(t) ==> Next(c, s, a).threads[t] == s.threads[t]
    ensures a == Advance(t) && k <= |s.cells| ==> Reads(Next(c, s, a).threads[t], first, k + 1, |s.cells|)
  {
  }

  lemma ReadStarts<In, V>(c: Config<In, V>, s: State<In, V>, t: nat, size: nat)
    requires t < |s.threads| && s.threads[t].Idle? && s.sequence % 2 == 0
    ensures |Next(c, s, StartRead(t)).threads| == |s.threads|
    ensures Reads(Next(c, s, StartRead(t)).threads[t], s.sequence, 0, size)
  {
  }

  lemma {:induction false} ReadUnderWay<In, V>(c: Config<In, V>, actions: seq<Action<In, V>>, m: nat, n: nat, t: nat)
    requires m < n <= |actions| && t < c.threads && actions[m] == StartRead(t)
    requires |Run(c, actions, m).threads| == c.threads && Run(c, actions, m).threads[t].Idle?
    requires Run(c, actions, m).sequence % 2 == 0
    requires Accesses(actions, t, m + 1, n) <= |c.initial| + 1
    ensures |Run(c, actions, n).threads| == c.threads
    ensures var s, s' := Run(c, actions, m), Run(c, actions, n);
            Reads(s'.threads[t], s.sequence, Accesses(actions, t, m + 1, n), |c.initial|)
  {
    hide Next, Reads;
    RunSize(c, actions, n);
    if n == m + 1 {
      ReadStarts(c, Run(c, actions, m), t, |c.initial|);
    } else {
      ReadUnderWay(c, actions, m, n - 1, t);
      RunSize(c, actions, n - 1);
      ReadMoves(c, Run(c, actions, n - 1), actions[n - 1], t, Run(c, actions, m).sequence,
                Accesses(actions, t, m + 1, n - 1));
    }
  }

  /** A read that starts on an even word and makes its accesses, one per position and two more, with any
      actions of any threads in between, returns true if and only if the word is the same at its last access,
      and then delivers the positions and the LSN that are current there. */
  lemma {:induction false} ReadSucceedsIff<In, V>(c: Config<In, V>, actions: seq<Action<In, V>>, m: nat, n: nat, t: nat)
    requires m < n < |actions| && t < c.threads
    requires |Run(c, actions, m).threads| == c.threads && Run(c, actions, m).threads[t].Idle?
    requires actions[m] == StartRead(t) && Run(c, actions, m).sequence % 2 == 0
    requires actions[n] == Advance(t) && Accesses(actions, t, m + 1, n) == |c.initial| + 1
    ensures var s, s' := Run(c, actions, n), Run(c, actions, n + 1);
            && |s'.threads| == c.threads && s'.threads[t].Idle?
            && s'.served == s.served + if s.sequence == Run(c, actions, m).sequence
                                       then [Read(t, Snap(s.cells, s.lastLsn), |s.log|)] else []
  {
    ReadUnderWay(c, actions, m, n, t);
    RunKeeps(c, actions, n);
    var s := Run(c, actions, n);
    assert s.threads[t].Copied? && StageOk(c, s, s.threads[t]);
    assert Run(c, actions, n + 1) == ReadStep(s, t);
  }

  /** A read that finds the word odd returns at once. */
  lemma {:induction false} ReadRefused<In, V>(c: Config<In, V>, actions: seq<Action<In, V>>, n: nat, t: nat)
    requires n < |actions| && actions[n] == StartRead(t) && Run(c, actions, n).sequence % 2 == 1
    ensures Run(c, actions, n + 1) == Run(c, actions, n)
  {
    assert Run(c, actions, n + 1) == Next(c, Run(c, actions, n), actions[n]);
  }

  // ---------------------------------------------------------------- one publisher

  /** Only thread `w` ever publishes. */
  ghost predicate OnlyPublisher<In, V>(actions: seq<Action<In, V>>, w: nat) {
    forall i :: 0 <= i < |actions| && actions[i].Publish? ==> actions[i].tid == w
  }

  predicate Reading<In, V>(stage: Stage<In, V>) { stage.Idle? || stage.Copying? || stage.Copied? }

  ghost predicate LsnsIncrease<In>(log: seq<Entry<In>>) {
    forall i, j :: 0 <= i < j < |log| ==> log[i].lsn < log[j].lsn
  }

  /** With one publisher the word it loaded is still the word, and its LSN is above all logged ones. */
  ghost predicate Alone<In, V>(s: State<In, V>, w: nat) {
    (forall t :: 0 <= t < |s.threads| && t != w ==> Reading(s.threads[t])) &&
    (w < |s.threads| && s.threads[w].Loaded? ==> s.threads[w].seen == s.sequence) &&
    LsnsIncrease(s.log) &&
    (forall i :: 0 <= i < |s.log| ==> s.log[i].lsn < s.counter) &&
    (w < |s.threads| && (s.threads[w].Reserved? || s.threads[w].Loaded?) ==>
      s.threads[w].lsn < s.counter && forall i :: 0 <= i < |s.log| ==> s.log[i].lsn < s.threads[w].lsn)
  }

  lemma AloneAdvance<In, V>(c: Config<In, V>, s: State<In, V>, t: nat, w: nat)
    requires Inv(c, s) && Alone(s, w) && t < |s.threads|
    ensures Alone(Next(c, s, Advance(t)), w)
  {
    hide Folded, ReadsOk, StageOk;
  }

  lemma AloneNext<In, V>(c: Config<In, V>, s: State<In, V>, a: Action<In, V>, w: nat)
    requires Inv(c, s) && Alone(s, w) && (a.Publish? ==> a.tid == w)
    ensures Alone(Next(c, s, a), w)
  {
    if a.Advance? && a.tid < |s.threads| {
      hide Alone;
      AloneAdvance(c, s, a.tid, w);
    } else {
      hide Inv, PublishStep, ReadStep;
    }
  }

  lemma {:induction false} AloneRun<In, V>(c: Config<In, V>, actions: seq<Action<In, V>>, n: nat, w: nat)
    requires n <= |actions| && OnlyPublisher(actions, w)
    ensures Alone(Run(c, actions, n), w)
  {
    hide Next, Inv;
    if n == 0 {
    } else {
      hide Alone;
      AloneRun(c, actions, n - 1, w);
      RunKeeps(c, actions, n - 1);
      AloneNext(c, Run(c, actions, n - 1), actions[n - 1], w);
    }
  }

  /** With a single publishing thread the LSNs of successive publishes strictly increase. */
  lemma SinglePublisherOrdered<In, V>(c: Config<In, V>, actions: seq<Action<In, V>>, n: nat, w: nat)
    requires n <= |actions| && OnlyPublisher(actions, w)
    ensures LsnsIncrease(Run(c, actions, n).log)
  {
    hide Run;
    AloneRun(c, actions, n, w);
  }

  // ---------------------------------------------------------------- two publishers

  /** Only threads of the set publish. */
  predicate Publishers<In, V>(actions: seq<Action<In, V>>, ps: set<nat>) {
    forall i :: 0 <= i < |actions| && actions[i].Publish? ==> actions[i].tid in ps
  }

  /** Some run in which only these threads publish ends in this state. */
  ghost predicate Reached<In(!new), V(!new)>(c: Config<In, V>, ps: set<nat>, s: State<In, V>) {
    exists actions: seq<Action<In, V>> :: Publishers(actions, ps) && Run(c, actions, |actions|) == s
  }

  lemma {:induction false} RunPrefix<In, V>(c: Config<In, V>, a: seq<Action<In, V>>, b: seq<Action<In, V>>, n: nat)
    requires n <= |a| && a <= b
    ensures Run(c, b, n) == Run(c, a, n)
  {
    hide Next;
    if n == 0 {
    } else {
      RunPrefix(c, a, b, n - 1);
    }
  }

  lemma ReachNext<In(!new), V(!new)>(c: Config<In, V>, ps: set<nat>, s: State<In, V>, a: Action<In, V>)
    requires Reached(c, ps, s) && (a.Publish? ==> a.tid in ps)
    ensures Reached(c, ps, Next(c, s, a))
  {
    hide Next;
    var actions: seq<Action<In, V>> :| Publishers(actions, ps) && Run(c, actions, |actions|) == s;
    var more := actions + [a];
    RunPrefix(c, actions, more, |actions|);
    assert Run(c, more, |more|) == Next(c, s, a);
  }

  /** `p` and then `q` have reserved an LSN. */
  lemma ReserveTwo<In(!new), V(!new)>(c: Config<In, V>, ps: set<nat>, p: nat, q: nat, x: In, y: In)
    returns (s: State<In, V>)
    requires p < c.threads && q < c.threads && p != q && p in ps && q in ps
    ensures Reached(c, ps, s) && |s.threads| == c.threads
    ensures s.threads[p] == Reserved(x, 0) && s.threads[q] == Reserved(y, 1)
    ensures s.sequence == 0 && s.cells == c.initial && s.log == []
  {
    var s0 := Start(c);
    assert Reached(c, ps, s0) by { assert Publishers<In, V>([], ps) && Run(c, [], 0) == s0; }
    hide Reached;
    ReachNext(c, ps, s0, Publish(p, x));
    var s1 := Next(c, s0, Publish(p, x));
    ReachNext(c, ps, s1, Publish(q, y));
    s := Next(c, s1, Publish(q, y));
  }

  /** Two accesses take a word that is even. */
  lemma TakeWord<In(!new), V(!new)>(c: Config<In, V>, ps: set<nat>, s: State<In, V>, t: nat) returns (s2: State<In, V>)
    requires Reached(c, ps, s) && t < |s.threads| && s.threads[t].Reserved? && s.sequence % 2 == 0
    ensures Reached(c, ps, s2) && s2.cells == s.cells && s2.sequence == s.sequence + 1
    ensures var r := s.threads[t];
            && s2.threads == s.threads[t := Writing(r.input, r.lsn, s.sequence, s.cells)]
            && s2.log == s.log + [Entry(r.input, r.lsn)]
  {
    hide Reached;
    ReachNext(c, ps, s, Advance(t));
    var s1 := Next(c, s, Advance(t));
    assert s1 == At(s, t, Loaded(s.threads[t].input, s.threads[t].lsn, s.sequence));
    ReachNext(c, ps, s1, Advance(t));
    s2 := Next(c, s1, Advance(t));
  }

  /** The logic writes its first `n` positions one by one. */
  lemma {:induction false} WriteCells<In(!new), V(!new)>(
    c: Config<In, V>, ps: set<nat>, s: State<In, V>, t: nat, to: seq<V>, n: nat)
    returns (s': State<In, V>)
    requires Reached(c, ps, s) && t < |s.threads| && s.threads[t].Writing? && |to| == |s.cells| && n <= |to|
    ensures Reached(c, ps, s') && s' == s.(cells := to[..n] + s.cells[n..])
    decreases n
  {
    hide Reached;
    if n == 0 {
      s' := s;
      assert s.cells == to[..0] + s.cells[0..];
    } else {
      var s1 := WriteCells(c, ps, s, t, to, n - 1);
      ReachNext(c, ps, s1, Scribble(t, n - 1, to[n - 1]));
      s' := Next(c, s1, Scribble(t, n - 1, to[n - 1]));
      assert s'.cells == to[..n] + s.cells[n..];
    }
  }

  /** Three accesses give the word back once the logic is done. */
  lemma GiveWord<In(!new), V(!new)>(c: Config<In, V>, ps: set<nat>, s: State<In, V>, t: nat) returns (s3: State<In, V>)
    requires Reached(c, ps, s) && t < |s.threads| && s.threads[t].Writing?
    requires var w := s.threads[t]; s.cells == c.process(w.input, w.lsn, w.found)
    ensures Reached(c, ps, s3) && s3.threads == s.threads[t := Idle] && s3.log == s.log && s3.cells == s.cells
    ensures s3.sequence == s.threads[t].seen + 2 && s3.lastLsn == s.threads[t].lsn
  {
    hide Reached;
    var w := s.threads[t];
    ReachNext(c, ps, s, Advance(t));
    var s1 := Next(c, s, Advance(t));
    assert s1 == At(s, t, Written(w.input, w.lsn, w.seen));
    ReachNext(c, ps, s1, Advance(t));
    var s2 := Next(c, s1, Advance(t));
    assert s2 == At(s1, t, Stamped(w.input, w.lsn, w.seen)).(lastLsn := w.lsn);
    ReachNext(c, ps, s2, Advance(t));
    s3 := Next(c, s2, Advance(t));
  }

  /** From every state some run reaches with the word even, an idle thread can publish: the run goes on to
      the state in which its input is processed on the positions that were there, stamped and logged. */
  lemma PublishCompletes<In(!new), V(!new)>(c: Config<In, V>, ps: set<nat>, s: State<In, V>, t: nat, x: In)
    returns (s': State<In, V>)
    requires Reached(c, ps, s) && t in ps && t < |s.threads| && s.threads[t].Idle? && s.sequence % 2 == 0
    requires |c.process(x, s.counter, s.cells)| == |s.cells|
    ensures Reached(c, ps, s') && s'.threads == s.threads
    ensures s'.cells == c.process(x, s.counter, s.cells) && s'.lastLsn == s.counter
    ensures s'.sequence == s.sequence + 2 && s'.log == s.log + [Entry(x, s.counter)]
  {
    hide Reached;
    var to := c.process(x, s.counter, s.cells);
    ReachNext(c, ps, s, Publish(t, x));
    var s0 := Next(c, s, Publish(t, x));
    hide Next;
    var s1 := TakeWord(c, ps, s0, t);
    var s2 := WriteCells(c, ps, s1, t, to, |to|);
    assert s2.cells == to;
    s' := GiveWord(c, ps, s2, t);
    assert s'.threads == s.threads;
  }

  /** `q` reserves after `p` and publishes before it. */
  lemma Overtaking<In(!new), V(!new)>(c: Config<In, V>, ps: set<nat>, p: nat, q: nat, x: In, y: In)
    returns (s: State<In, V>)
    requires p < c.threads && q < c.threads && p != q && p in ps && q in ps
    requires |c.process(y, 1, c.initial)| == |c.initial|
    ensures Reached(c, ps, s) && s.log == [Entry(y, 1), Entry(x, 0)]
  {
    hide Reached, Next;
    var to := c.process(y, 1, c.initial);
    var s0 := ReserveTwo(c, ps, p, q, x, y);
    var s1 := TakeWord(c, ps, s0, q);
    var s2 := WriteCells(c, ps, s1, q, to, |to|);
    assert s2.cells == to;
    var s3 := GiveWord(c, ps, s2, q);
    s := TakeWord(c, ps, s3, p);
  }

  /** With any two publishing threads, any inputs and any logic that keeps the number of positions, some
      run publishes LSNs out of order: the number is reserved before the word is taken
      (include/slabflux/bridge/bridge_sync.hpp:140-150). */
  lemma TwoPublishersUnordered<In(!new), V(!new)>(c: Config<In, V>, p: nat, q: nat, x: In, y: In)
    requires p < c.threads && q < c.threads && p != q && |c.process(y, 1, c.initial)| == |c.initial|
    ensures exists actions: seq<Action<In, V>> ::
              Publishers(actions, {p, q}) && !LsnsIncrease(Run(c, actions, |actions|).log)
  {
    hide Run, Publishers;
    var s := Overtaking(c, {p, q}, p, q, x, y);
    var actions: seq<Action<In, V>> :| Publishers(actions, {p, q}) && Run(c, actions, |actions|) == s;
    assert !(s.log[0].lsn < s.log[1].lsn);
  }

  /** All runs in which only threads of a set publish have increasing LSNs if and only if the set holds at
      most one thread. */
  lemma OrderedIffOnePublisher<In(!new), V(!new)>(c: Config<In, V>, ps: set<nat>, x: In)
    requires (forall t :: t in ps ==> t < c.threads) && |c.process(x, 1, c.initial)| == |c.initial|
    ensures |ps| <= 1 <==>
            forall actions: seq<Action<In, V>>, n: nat :: Publishers(actions, ps) && n <= |actions| ==>
              LsnsIncrease(Run(c, actions, n).log)
  {
    hide Run, LsnsIncrease;
    if |ps| <= 1 {
      forall actions: seq<Action<In, V>>, n: nat | Publishers(actions, ps) && n <= |actions|
        ensures LsnsIncrease(Run(c, actions, n).log)
      {
        var w := OnlyOne(ps);
        SinglePublisherOrdered(c, actions, n, w);
      }
    } else {
      var p :| p in ps;
      var q :| q in ps - {p} by { assert |ps - {p}| == |ps| - 1; }
      TwoPublishersUnordered(c, p, q, x, x);
    }
  }

  lemma OnlyOne(ps: set<nat>) returns (w: nat)
    requires |ps| <= 1
    ensures forall t :: t in ps ==> t == w
  {
    if ps == {} {
      w := 0;
    } else {
      w :| w in ps;
      assert |ps - {w}| == 0;
    }
  }

  // ---------------------------------------------------------------- the single-writer observer

  /** One step with the writer of the observer: it loads the word without looking at its parity and
      stores the odd word without comparing. The number an update carries is bookkeeping only. */
  function ObserverNext<In, V(==)>(c: Config<In, V>, s: State<In, V>, a: Action<In, V>): State<In, V> {
    if a.Advance? && a.tid < |s.threads| then
      match s.threads[a.tid]
      case Reserved(input, lsn) => At(s, a.tid, Loaded(input, lsn, s.sequence))
      case Loaded(input, lsn, seen) =>
        At(s, a.tid, Writing(input, lsn, seen, s.cells))
        .(sequence := seen + 1, holder := a.tid, log := s.log + [Entry(input, lsn)])
      case _ => Next(c, s, a)
    else Next(c, s, a)
  }

  function ObserverRun<In, V(==)>(c: Config<In, V>, actions: seq<Action<In, V>>, n: nat): State<In, V>
    requires n <= |actions|
  {
    if n == 0 then Start(c) else ObserverNext(c, ObserverRun(c, actions, n - 1), actions[n - 1])
  }

  lemma ObserverStep<In, V>(c: Config<In, V>, s: State<In, V>, a: Action<In, V>, w: nat)
    requires Inv(c, s) && Alone(s, w)
    ensures ObserverNext(c, s, a) == Next(c, s, a)
  {
    hide Folded, ReadsOk, StageOk, LsnsIncrease;
    assert s.holder != -1 ==> s.threads[s.holder].Critical();
  }

  /** With one writer the plain stores of the observer do exactly what the compare-and-swap of the
      bridge does, in every interleaving with any number of readers; so everything proved of the
      runs of the bridge holds of the observer. */
  lemma {:induction false} ObserverIsBridge<In, V>(c: Config<In, V>, actions: seq<Action<In, V>>, n: nat, w: nat)
    requires n <= |actions| && OnlyPublisher(actions, w)
    ensures ObserverRun(c, actions, n) == Run(c, actions, n)
  {
    hide Next, ObserverNext, Inv, Alone;
    if n == 0 {
    } else {
      ObserverIsBridge(c, actions, n - 1, w);
      RunKeeps(c, actions, n - 1);
      AloneRun(c, actions, n - 1, w);
      ObserverStep(c, Run(c, actions, n - 1), actions[n - 1], w);
    }
  }

  // ---------------------------------------------------------------- the bridge object, called in turn

  class WideStateSlab<V> {
    var sequence: nat
    const positions: array<V>
    var lastLsn: nat

    constructor (initial: seq<V>)
      ensures fresh(positions) && positions[..] == initial && sequence == 0 && lastLsn == 0
    {
      positions := new V[|initial|](i requires 0 <= i < |initial| => initial[i]);
      sequence, lastLsn := 0, 0;
    }

    /** With nobody else about, the word is even and is taken at once; the logic rewrites the positions
        in place. */
    method Publish<In>(process: (In, nat, seq<V>) -> seq<V>, input: In, context: ExecutionContext)
      requires sequence % 2 == 0
      requires |process(input, context.next, positions[..])| == positions.Length
      modifies this, positions, context
      ensures positions[..] == process(input, old(context.next), old(positions[..]))
      ensures lastLsn == old(context.next)
      ensures sequence == old(sequence) + 2 && context.next == old(context.next) + 1
    {
      var lsn := context.ReserveNext();
      var seen := sequence;
      sequence := seen + 1;
      var after := process(input, lsn, positions[..]);
      forall i | 0 <= i < positions.Length {
        positions[i] := after[i];
      }
      lastLsn := lsn;
      sequence := seen + 2;
    }

    /** Refuses while the word is odd; otherwise copies positions and LSN. */
    method TryReadWide(out: array<V>) returns (ok: bool, lsn: nat)
      requires out != positions && out.Length == positions.Length
      modifies out
      ensures ok == (sequence % 2 == 0)
      ensures ok ==> Snap(out[..], lsn) == Snap(positions[..], lastLsn)
      ensures !ok ==> out[..] == old(out[..])
    {
      var first := sequence;
      if first % 2 == 1 {
        return false, 0;
      }
      for i := 0 to positions.Length
        invariant out[..i] == positions[..i]
      {
        out[i] := positions[i];
      }
      lsn := lastLsn;
      ok := first == sequence;
    }
  }
}
