/** The single-producer single-consumer bridge (include/slabflux/bridge/engine_pulse.hpp:68-159).

    One sender and one consumer interleave at the granularity of one shared access per step, so each
    works with heads it may have read long ago. The execution context's clock is shared with others,
    who may draw from it at any time. `accepted`, `processed`, `stamps` and `batches` only record the
    run; no step depends on them. */
module SpscRing {
  import opened Context
  import opened Modular

  /** `processor.process` as a function of item, LSN and positions. */
  datatype Config<!T, !P> = Config(capacity: nat, blank: T, process: (T, nat, P) -> P, initial: P)

  /** Where the sender is inside `send`. */
  datatype Sender<T> =
    | Resting
    | LoadedWrite(data: T, w: nat)
    | LoadedBoth(data: T, w: nat, r: nat)
    | Stored(data: T, w: nat)

  /** Where the consumer is inside `consume`. */
  datatype Consumer =
    | Waiting
    | LoadedRead(r: nat)
    | Compared(r: nat, w: nat)
    | Reserved(r: nat, w: nat, lsn: nat)
    | Sequenced(r: nat, w: nat, lsn: nat, seen: nat)
    | Draining(r: nat, w: nat, lsn: nat)
    | Released(lsn: nat)
  {
    predicate InBatch() { Reserved? || Sequenced? || Draining? || Released? }
  }

  datatype Action<T> = Send(data: T) | SenderStep | Consume | ConsumerStep | OtherReserve

  datatype State<T, P> = State(
    ring: seq<T>,
    write: nat,
    read: nat,
    clock: nat,
    sequence: nat,
    lastLsn: nat,
    positions: P,
    sender: Sender<T>,
    consumer: Consumer,
    accepted: seq<T>,
    processed: seq<T>,
    stamps: seq<nat>,
    batches: seq<nat>)

  function Start<T, P>(c: Config<T, P>): State<T, P> {
    State(seq(c.capacity, i => c.blank), 0, 0, 1, 1, 0, c.initial, Resting, Waiting, [], [], [], [])
  }

  function SenderNext<T, P>(c: Config<T, P>, s: State<T, P>): State<T, P>
    requires 0 < c.capacity == |s.ring|
  {
    match s.sender
    case Resting => s
    case LoadedWrite(data, w) => s.(sender := LoadedBoth(data, w, s.read))
    case LoadedBoth(data, w, r) =>
      if w - r >= c.capacity then s.(sender := Resting)
      else s.(ring := s.ring[w % c.capacity := data], sender := Stored(data, w))
    case Stored(data, w) => s.(write := w + 1, sender := Resting, accepted := s.accepted + [data])
  }

  function ConsumerNext<T, P>(c: Config<T, P>, s: State<T, P>): State<T, P>
    requires 0 < c.capacity == |s.ring|
  {
    match s.consumer
    case Waiting => s
    case LoadedRead(r) => s.(consumer := Compared(r, s.write))
    case Compared(r, w) =>
      if r == w then s.(consumer := Waiting)
      else s.(clock := s.clock + 1, consumer := Reserved(r, w, s.clock), batches := s.batches + [s.clock])
    case Reserved(r, w, lsn) => s.(consumer := Sequenced(r, w, lsn, s.sequence))
    case Sequenced(r, w, lsn, seen) => s.(sequence := seen + 1, consumer := Draining(r, w, lsn))
    case Draining(r, w, lsn) =>
      if r < w then
        var item := s.ring[r % c.capacity];
        s.(positions := c.process(item, lsn, s.positions), consumer := Draining(r + 1, w, lsn),
           processed := s.processed + [item], stamps := s.stamps + [lsn])
      else s.(read := r, consumer := Released(lsn))
    case Released(lsn) => s.(lastLsn := lsn, consumer := Waiting)
  }

  /** One step of the run; an action that is not possible leaves the state as it is. */
  function Next<T, P>(c: Config<T, P>, s: State<T, P>, a: Action<T>): (s': State<T, P>)
    requires 0 < c.capacity == |s.ring|
    ensures |s'.ring| == c.capacity
  {
    match a
    case Send(data) => if s.sender.Resting? then s.(sender := LoadedWrite(data, s.write)) else s
    case SenderStep => SenderNext(c, s)
    case Consume => if s.consumer.Waiting? then s.(consumer := LoadedRead(s.read)) else s
    case ConsumerStep => ConsumerNext(c, s)
    case OtherReserve => s.(clock := s.clock + 1)
  }

  function Run<T, P>(c: Config<T, P>, actions: seq<Action<T>>, n: nat): (s: State<T, P>)
    requires 0 < c.capacity && n <= |actions|
    ensures |s.ring| == c.capacity
  {
    if n == 0 then Start(c) else Next(c, Run(c, actions, n - 1), actions[n - 1])
  }

  // ---------------------------------------------------------------- the invariant

  /** The heads frame the items that were accepted and not yet given back. */
  ghost predicate Window<T, P>(c: Config<T, P>, s: State<T, P>) {
    && 0 < c.capacity == |s.ring|
    && s.read <= |s.processed| <= s.write == |s.accepted| <= s.read + c.capacity
    && s.processed == s.accepted[..|s.processed|]
    && (forall i :: s.read <= i < s.write ==> s.ring[i % c.capacity] == s.accepted[i])
  }

  predicate SenderOk<T(==), P>(c: Config<T, P>, s: State<T, P>) {
    match s.sender
    case Resting => true
    case LoadedWrite(_, w) => w == s.write
    case LoadedBoth(_, w, r) => w == s.write && r <= s.read && w <= r + c.capacity
    case Stored(data, w) =>
      w == s.write < s.read + c.capacity && 0 < c.capacity == |s.ring| && s.ring[w % c.capacity] == data
  }

  predicate ConsumerOk<T, P>(s: State<T, P>) {
    match s.consumer
    case Waiting => |s.processed| == s.read
    case LoadedRead(r) => |s.processed| == s.read == r
    case Compared(r, w) => |s.processed| == s.read == r <= w <= s.write
    case Reserved(r, w, _) => |s.processed| == s.read == r < w <= s.write
    case Sequenced(r, w, _, _) => |s.processed| == s.read == r < w <= s.write
    case Draining(r, w, _) => s.read <= r == |s.processed| <= w <= s.write && s.read < w
    case Released(_) => |s.processed| == s.read
  }

  /** Batch LSNs grow strictly, lie below the clock, and the newest one is the batch at work. */
  predicate Stamping<T, P>(s: State<T, P>) {
    && 0 < s.clock
    && |s.stamps| == |s.processed|
    && (forall i, j :: 0 <= i < j < |s.batches| ==> s.batches[i] < s.batches[j])
    && (forall i :: 0 <= i < |s.batches| ==> 0 < s.batches[i] < s.clock)
    && (s.consumer.InBatch() ==> |s.batches| > 0 && s.batches[|s.batches| - 1] == s.consumer.lsn)
    && (!s.consumer.InBatch() ==> s.lastLsn == if s.batches == [] then 0 else s.batches[|s.batches| - 1])
  }

  /** The positions after processing the first `n` items in order, each with its stamp. */
  function Folded<T, P>(c: Config<T, P>, items: seq<T>, stamps: seq<nat>, n: nat): P
    requires n <= |items| == |stamps|
  {
    if n == 0 then c.initial else c.process(items[n - 1], stamps[n - 1], Folded(c, items, stamps, n - 1))
  }

  ghost predicate Positions<T, P(!new)>(c: Config<T, P>, s: State<T, P>) {
    |s.stamps| == |s.processed| && s.positions == Folded(c, s.processed, s.stamps, |s.processed|)
  }

  ghost predicate Inv<T, P(!new)>(c: Config<T, P>, s: State<T, P>) {
    Window(c, s) && SenderOk(c, s) && ConsumerOk(s) && Stamping(s) && Positions(c, s)
  }

  lemma SlotFree<T, P>(c: Config<T, P>, s: State<T, P>, w: nat, data: T)
    requires Window(c, s) && w == s.write < s.read + c.capacity
    ensures Window(c, s.(ring := s.ring[w % c.capacity := data]))
  {
    forall i | s.read <= i < s.write
      ensures s.ring[w % c.capacity := data][i % c.capacity] == s.accepted[i]
    {
      SlotsDiffer(i, w, c.capacity);
    }
  }

  lemma SenderKeeps<T, P(!new)>(c: Config<T, P>, s: State<T, P>)
    requires Inv(c, s)
    ensures Inv(c, SenderNext(c, s))
  {
    hide Folded, Stamping;
    var s' := SenderNext(c, s);
    SameStamping(s, s');
    match s.sender {
      case LoadedBoth(data, w, r) =>
        if w - r < c.capacity {
          SlotFree(c, s, w, data);
        }
      case Stored(data, w) =>
        assert s'.accepted[..|s.processed|] == s.accepted[..|s.processed|];
      case _ =>
    }
  }

  lemma SameStamping<T, P>(s: State<T, P>, s': State<T, P>)
    requires Stamping(s) && s'.clock >= s.clock && s'.stamps == s.stamps && s'.processed == s.processed
    requires s'.batches == s.batches && s'.consumer == s.consumer && s'.lastLsn == s.lastLsn
    ensures Stamping(s')
  {
  }

  lemma {:induction false} FoldedSame<T, P>(
    c: Config<T, P>, a: seq<T>, b: seq<T>, x: seq<nat>, y: seq<nat>, n: nat)
    requires n <= |a| == |x| && n <= |b| == |y|
    requires forall i :: 0 <= i < n ==> a[i] == b[i] && x[i] == y[i]
    ensures Folded(c, a, x, n) == Folded(c, b, y, n)
  {
    if n == 0 {
    } else {
      FoldedSame(c, a, b, x, y, n - 1);
    }
  }

  lemma DrainKeeps<T, P(!new)>(c: Config<T, P>, s: State<T, P>)
    requires Inv(c, s) && s.consumer.Draining?
    ensures Inv(c, ConsumerNext(c, s))
  {
    hide Folded, SenderOk;
    var s' := ConsumerNext(c, s);
    if s.consumer.r < s.consumer.w {
      var r := s.consumer.r;
      assert s.ring[r % c.capacity] == s.accepted[r];
      assert s.accepted[..r + 1] == s.accepted[..r] + [s.accepted[r]];
      FoldedSame(c, s.processed, s'.processed, s.stamps, s'.stamps, r);
      FoldedStep(c, s'.processed, s'.stamps, r + 1);
    }
    SameSender(c, s, s');
  }

  lemma FoldedStep<T, P>(c: Config<T, P>, items: seq<T>, stamps: seq<nat>, n: nat)
    requires 0 < n <= |items| == |stamps|
    ensures Folded(c, items, stamps, n) == c.process(items[n - 1], stamps[n - 1], Folded(c, items, stamps, n - 1))
  {
  }

  lemma SameSender<T, P>(c: Config<T, P>, s: State<T, P>, s': State<T, P>)
    requires SenderOk(c, s) && s'.sender == s.sender && s'.write == s.write && s'.ring == s.ring && s'.read >= s.read
    ensures SenderOk(c, s')
  {
  }

  lemma ConsumerKeeps<T, P(!new)>(c: Config<T, P>, s: State<T, P>)
    requires Inv(c, s)
    ensures Inv(c, ConsumerNext(c, s))
  {
    if s.consumer.Draining? {
      DrainKeeps(c, s);
    } else {
      hide Folded, SenderOk, Window, Stamping;
      SameSender(c, s, ConsumerNext(c, s));
      SameWindow(c, s, ConsumerNext(c, s));
      BatchKeeps(c, s);
    }
  }

  lemma BatchKeeps<T, P>(c: Config<T, P>, s: State<T, P>)
    requires 0 < c.capacity == |s.ring| && Stamping(s) && !s.consumer.Draining?
    ensures Stamping(ConsumerNext(c, s))
  {
    var s' := ConsumerNext(c, s);
    if s.consumer.Compared? && s.consumer.r != s.consumer.w {
      assert s'.batches == s.batches + [s.clock];
    } else {
      assert s'.batches == s.batches && s'.clock == s.clock;
    }
  }

  lemma SameWindow<T, P>(c: Config<T, P>, s: State<T, P>, s': State<T, P>)
    requires Window(c, s)
    requires s'.ring == s.ring && s'.read == s.read && s'.write == s.write
    requires s'.processed == s.processed && s'.accepted == s.accepted
    ensures Window(c, s')
  {
  }

  lemma StepKeeps<T, P(!new)>(c: Config<T, P>, s: State<T, P>, a: Action<T>)
    requires Inv(c, s)
    ensures Inv(c, Next(c, s, a))
  {
    match a {
      case SenderStep => SenderKeeps(c, s);
      case ConsumerStep => ConsumerKeeps(c, s);
      case _ => EnterKeeps(c, s, a);
    }
  }

  lemma EnterKeeps<T, P(!new)>(c: Config<T, P>, s: State<T, P>, a: Action<T>)
    requires Inv(c, s) && !a.SenderStep? && !a.ConsumerStep?
    ensures Inv(c, Next(c, s, a))
  {
    assert 0 < c.capacity == |s.ring|;
    hide Folded, Window, Stamping;
    SameWindow(c, s, Next(c, s, a));
    if a.Consume? && s.consumer.Waiting? {
      StartsNoBatch(s);
    } else {
      SameStamping(s, Next(c, s, a));
    }
  }

  lemma StartsNoBatch<T, P>(s: State<T, P>)
    requires Stamping(s) && s.consumer.Waiting?
    ensures Stamping(s.(consumer := LoadedRead(s.read)))
  {
  }

  lemma {:induction false} RunKeeps<T, P(!new)>(c: Config<T, P>, actions: seq<Action<T>>, n: nat)
    requires 0 < c.capacity && n <= |actions|
    ensures Inv(c, Run(c, actions, n))
  {
    hide Next, Inv;
    if n == 0 {
      StartOk(c);
    } else {
      RunKeeps(c, actions, n - 1);
      StepKeeps(c, Run(c, actions, n - 1), actions[n - 1]);
    }
  }

  lemma StartOk<T, P(!new)>(c: Config<T, P>)
    requires 0 < c.capacity
    ensures Inv(c, Start(c))
  {
  }

  // ---------------------------------------------------------------- the theorems

  /** The abstract bridge: an unbounded queue. */
  function Queue<T, P>(s: State<T, P>): seq<T>
    requires |s.processed| <= |s.accepted|
  {
    s.accepted[|s.processed|..]
  }

  /** A step of the queue: it appends the item of the running `send`, takes the oldest item, or stays. */
  ghost predicate QueueStep<T, P>(s: State<T, P>, a: Action<T>, s': State<T, P>) {
    && |s.processed| <= |s.accepted| && |s'.processed| <= |s'.accepted|
    && (|| Queue(s') == Queue(s)
        || (s.sender.Stored? && a.SenderStep? && Queue(s') == Queue(s) + [s.sender.data])
        || (a.ConsumerStep? && Queue(s) != []
            && Queue(s) == [Queue(s)[0]] + Queue(s') && s'.processed == s.processed + [Queue(s)[0]]))
  }

  /** In every interleaving, every step of the bridge is a step of an unbounded queue. */
  lemma RefinesQueue<T, P(!new)>(c: Config<T, P>, actions: seq<Action<T>>, n: nat)
    requires 0 < c.capacity && n < |actions|
    ensures QueueStep(Run(c, actions, n), actions[n], Run(c, actions, n + 1))
  {
    hide QueueStep;
    RunKeeps(c, actions, n);
    StepIsQueueStep(c, Run(c, actions, n), actions[n]);
  }

  lemma StepIsQueueStep<T, P>(c: Config<T, P>, s: State<T, P>, a: Action<T>)
    requires Window(c, s) && SenderOk(c, s) && ConsumerOk(s)
    ensures QueueStep(s, a, Next(c, s, a))
  {
    var s' := Next(c, s, a);
    if a.SenderStep? && s.sender.Stored? {
      assert s'.processed == s.processed && Queue(s') == Queue(s) + [s.sender.data];
    } else if a.ConsumerStep? && s.consumer.Draining? && s.consumer.r < s.consumer.w {
      var r := s.consumer.r;
      assert s.ring[r % c.capacity] == s.accepted[r];
      assert Queue(s) == [s.accepted[r]] + Queue(s');
    } else {
      assert s'.accepted == s.accepted && s'.processed == s.processed;
    }
  }

  /** In every interleaving: what is processed is a prefix of what was accepted, in order; at most
      `capacity` accepted items are not yet given back; the positions are the processed items folded in
      order; batch LSNs strictly increase and start above zero. */
  lemma SafeAlways<T, P(!new)>(c: Config<T, P>, actions: seq<Action<T>>, n: nat)
    requires 0 < c.capacity && n <= |actions|
    ensures var s := Run(c, actions, n);
            && s.processed <= s.accepted
            && s.read <= s.write == |s.accepted| && s.write - s.read <= c.capacity
            && |s.stamps| == |s.processed| && s.positions == Folded(c, s.processed, s.stamps, |s.processed|)
            && (forall i, j :: 0 <= i < j < |s.batches| ==> 0 < s.batches[i] < s.batches[j])
  {
    hide Run, Folded;
    RunKeeps(c, actions, n);
  }

  /** A slot that still holds an unprocessed item, or one not yet given back, is never overwritten. */
  lemma NeverOverwritten<T, P(!new)>(c: Config<T, P>, actions: seq<Action<T>>, n: nat, i: nat)
    requires 0 < c.capacity && n < |actions|
    requires Run(c, actions, n).read <= i < Run(c, actions, n).write
    ensures i < |Run(c, actions, n).accepted|
    ensures Run(c, actions, n + 1).ring[i % c.capacity] == Run(c, actions, n).accepted[i]
  {
    var s := Run(c, actions, n);
    RunKeeps(c, actions, n);
    assert Run(c, actions, n + 1) == Next(c, s, actions[n]);
    assert s.ring[i % c.capacity] == s.accepted[i];
    if actions[n].SenderStep? && s.sender.LoadedBoth? && s.sender.w - s.sender.r < c.capacity {
      SlotsDiffer(i, s.write, c.capacity);
    }
  }

  /** A send is refused only when, at the moment it read the consumer's head, the ring was full. */
  lemma RefusedWhenFull<T, P(!new)>(c: Config<T, P>, actions: seq<Action<T>>, n: nat)
    requires 0 < c.capacity && n < |actions| && actions[n] == SenderStep
    requires Run(c, actions, n).sender.LoadedWrite?
    ensures var s, s' := Run(c, actions, n), Run(c, actions, n + 1);
            && s'.sender.LoadedBoth?
            && (s'.sender.w - s'.sender.r >= c.capacity <==> s.write - s.read == c.capacity)
  {
    RunKeeps(c, actions, n);
    assert Run(c, actions, n + 1) == SenderNext(c, Run(c, actions, n));
  }

  // ---------------------------------------------------------------- every call is seen through

  predicate StepOf<T>(a: Action<T>, sender: bool) { if sender then a.SenderStep? else a.ConsumerStep? }

  /** The steps of sender or consumer between two moments. */
  function Steps<T>(actions: seq<Action<T>>, sender: bool, i: nat, j: nat): nat
    requires j <= |actions|
    decreases j
  {
    if j <= i then 0 else Steps(actions, sender, i, j - 1) + if StepOf(actions[j - 1], sender) then 1 else 0
  }

  /** How far a send that found `w` and `r` has come after so many steps. */
  predicate SendStage<T(==), P>(c: Config<T, P>, s: State<T, P>, was: seq<T>, data: T, r: nat, steps: nat) {
    var room := |was| - r < c.capacity;
    && (steps == 1 ==> s.sender == LoadedBoth(data, |was|, r))
    && (steps == 2 ==> if room then s.sender == Stored(data, |was|) else s.sender.Resting? || s.sender.LoadedWrite?)
    && s.accepted == if steps >= 3 && room then was + [data] else was
  }

  lemma SendMoves<T, P>(c: Config<T, P>, s: State<T, P>, a: Action<T>, was: seq<T>, data: T, r: nat, steps: nat)
    requires 0 < c.capacity == |s.ring| && 1 <= steps <= 3 && SendStage(c, s, was, data, r, steps)
    requires a.SenderStep? ==> steps < 3
    ensures SendStage(c, Next(c, s, a), was, data, r, if a.SenderStep? then steps + 1 else steps)
  {
  }

  lemma SendReads<T, P>(c: Config<T, P>, s: State<T, P>, was: seq<T>, data: T)
    requires 0 < c.capacity == |s.ring| && s.sender == LoadedWrite(data, |was|) && s.accepted == was
    ensures SendStage(c, Next(c, s, SenderStep), was, data, s.read, 1)
  {
  }

  lemma HeadsCount<T, P(!new)>(c: Config<T, P>, actions: seq<Action<T>>, n: nat)
    requires 0 < c.capacity && n <= |actions|
    ensures var s := Run(c, actions, n);
            s.write == |s.accepted| && (s.consumer.Waiting? ==> s.read == |s.processed|)
  {
    hide Run, Stamping, Positions, SenderOk;
    RunKeeps(c, actions, n);
  }

  lemma Untouched<T, P>(c: Config<T, P>, s: State<T, P>, a: Action<T>)
    requires 0 < c.capacity == |s.ring|
    ensures !a.SenderStep? && !s.sender.Resting? ==>
              Next(c, s, a).sender == s.sender && Next(c, s, a).accepted == s.accepted
    ensures !a.ConsumerStep? && !s.consumer.Waiting? ==>
              Next(c, s, a).consumer == s.consumer && Next(c, s, a).processed == s.processed
  {
  }

  lemma {:induction false} SendWaits<T, P(!new)>(c: Config<T, P>, actions: seq<Action<T>>, m: nat, n: nat)
    requires 0 < c.capacity && m < n <= |actions| && actions[m].Send? && Run(c, actions, m).sender.Resting?
    requires Steps(actions, true, m + 1, n) == 0
    ensures var s, s' := Run(c, actions, m), Run(c, actions, n);
            s'.sender == LoadedWrite(actions[m].data, |s.accepted|) && s'.accepted == s.accepted
  {
    if n == m + 1 {
      HeadsCount(c, actions, m);
      assert Run(c, actions, n) == Next(c, Run(c, actions, m), actions[m]);
    } else {
      hide Next;
      SendWaits(c, actions, m, n - 1);
      Untouched(c, Run(c, actions, n - 1), actions[n - 1]);
    }
  }

  lemma {:induction false} SendUnderWay<T, P(!new)>(c: Config<T, P>, actions: seq<Action<T>>, m: nat, q: nat, n: nat)
    requires 0 < c.capacity && m < q < n <= |actions| && actions[m].Send? && Run(c, actions, m).sender.Resting?
    requires Steps(actions, true, m + 1, q) == 0 && actions[q].SenderStep? && Steps(actions, true, q, n) <= 3
    ensures SendStage(c, Run(c, actions, n), Run(c, actions, m).accepted, actions[m].data, Run(c, actions, q).read,
                      Steps(actions, true, q, n))
    ensures Steps(actions, true, q, n) >= 1
  {
    hide SendStage, Next;
    if n == q + 1 {
      SendWaits(c, actions, m, q);
      SendReads(c, Run(c, actions, q), Run(c, actions, m).accepted, actions[m].data);
      assert Steps(actions, true, q, q) == 0;
    } else {
      SendUnderWay(c, actions, m, q, n - 1);
      SendMoves(c, Run(c, actions, n - 1), actions[n - 1], Run(c, actions, m).accepted, actions[m].data,
                Run(c, actions, q).read, Steps(actions, true, q, n - 1));
    }
  }

  /** A send that has made its three steps, the first of them at moment q, with anything in between, has appended
      its item if and only if the ring was not full when that step read the consumer's head. */
  lemma {:induction false} SendCompletes<T, P(!new)>(c: Config<T, P>, actions: seq<Action<T>>, m: nat, q: nat, n: nat)
    requires 0 < c.capacity && m < q < n <= |actions| && actions[m].Send? && Run(c, actions, m).sender.Resting?
    requires Steps(actions, true, m + 1, q) == 0 && actions[q].SenderStep? && Steps(actions, true, q, n) == 3
    ensures var s, at, s' := Run(c, actions, m), Run(c, actions, q), Run(c, actions, n);
            && at.write == |s.accepted|
            && s'.accepted == if at.write - at.read < c.capacity then s.accepted + [actions[m].data] else s.accepted
  {
    hide Run, Next;
    SendWaits(c, actions, m, q);
    HeadsCount(c, actions, q);
    SendUnderWay(c, actions, m, q, n);
  }

  /** How far a consume that found the items up to `w` has come after so many steps. */
  predicate ConsumeStage<T(==), P>(s: State<T, P>, r: nat, w: nat, steps: nat) {
    && (steps == 1 ==> s.consumer == Compared(r, w))
    && (steps == 2 ==> s.consumer.Reserved? && s.consumer.r == r && s.consumer.w == w)
    && (steps == 3 ==> s.consumer.Sequenced? && s.consumer.r == r && s.consumer.w == w)
    && (4 <= steps <= w - r + 4 ==> s.consumer.Draining? && s.consumer.r == r + steps - 4 && s.consumer.w == w)
    && (steps == w - r + 5 ==> s.consumer.Released? && |s.processed| == s.read == w)
    && (steps <= w - r + 4 ==> |s.processed| == r + (if steps <= 4 then 0 else steps - 4))
  }

  lemma ConsumeMoves<T, P>(c: Config<T, P>, s: State<T, P>, a: Action<T>, r: nat, w: nat, steps: nat)
    requires 0 < c.capacity == |s.ring| && 1 <= steps <= w - r + 5 && r < w && ConsumeStage(s, r, w, steps)
    requires a.ConsumerStep? ==> steps < w - r + 5
    ensures ConsumeStage(Next(c, s, a), r, w, if a.ConsumerStep? then steps + 1 else steps)
  {
  }

  lemma {:induction false} ConsumeWaits<T, P(!new)>(c: Config<T, P>, actions: seq<Action<T>>, m: nat, n: nat)
    requires 0 < c.capacity && m < n <= |actions| && actions[m].Consume? && Run(c, actions, m).consumer.Waiting?
    requires Steps(actions, false, m + 1, n) == 0
    ensures var s, s' := Run(c, actions, m), Run(c, actions, n);
            s'.consumer == LoadedRead(|s.processed|) && s'.processed == s.processed
  {
    if n == m + 1 {
      HeadsCount(c, actions, m);
      assert Run(c, actions, n) == Next(c, Run(c, actions, m), actions[m]);
    } else {
      hide Next;
      ConsumeWaits(c, actions, m, n - 1);
      Untouched(c, Run(c, actions, n - 1), actions[n - 1]);
    }
  }

  lemma {:induction false} ConsumeUnderWay<T, P(!new)>(
    c: Config<T, P>, actions: seq<Action<T>>, m: nat, q: nat, n: nat, r: nat, w: nat)
    requires 0 < c.capacity && m < q < n <= |actions| && actions[m].Consume? && Run(c, actions, m).consumer.Waiting?
    requires Steps(actions, false, m + 1, q) == 0 && actions[q].ConsumerStep?
    requires r == |Run(c, actions, m).processed| && w == |Run(c, actions, q).accepted| && r < w
    requires Steps(actions, false, q, n) <= w - r + 5
    ensures Steps(actions, false, q, n) >= 1 && ConsumeStage(Run(c, actions, n), r, w, Steps(actions, false, q, n))
  {
    if n == q + 1 {
      ConsumeWaits(c, actions, m, q);
      HeadsCount(c, actions, q);
      assert Run(c, actions, n) == Next(c, Run(c, actions, q), actions[q]);
      assert Steps(actions, false, q, q) == 0;
    } else {
      hide ConsumeStage, Next;
      ConsumeUnderWay(c, actions, m, q, n - 1, r, w);
      ConsumeMoves(c, Run(c, actions, n - 1), actions[n - 1], r, w, Steps(actions, false, q, n - 1));
    }
  }

  /** A consume whose first step, at moment q, finds items accepted that are not processed has processed all of
      them and given their slots back after five steps more than there are such items, with anything in between. */
  lemma {:induction false} ConsumeCompletes<T, P(!new)>(
    c: Config<T, P>, actions: seq<Action<T>>, m: nat, q: nat, n: nat)
    requires 0 < c.capacity && m < q < n <= |actions| && actions[m].Consume? && Run(c, actions, m).consumer.Waiting?
    requires Steps(actions, false, m + 1, q) == 0 && actions[q].ConsumerStep?
    requires var r, w := |Run(c, actions, m).processed|, |Run(c, actions, q).accepted|;
             r < w && Steps(actions, false, q, n) == w - r + 5
    ensures var at, s' := Run(c, actions, q), Run(c, actions, n);
            |s'.processed| == s'.read == |at.accepted| && s'.processed <= s'.accepted
  {
    hide Run, Next, Folded;
    ConsumeUnderWay(c, actions, m, q, n, |Run(c, actions, m).processed|, |Run(c, actions, q).accepted|);
    SafeAlways(c, actions, n);
  }

  // ---------------------------------------------------------------- the bridge object, called in turn

  /** The slots of counters `from` to `to`. */
  function Held<T>(ring: seq<T>, from: nat, to: nat): (q: seq<T>)
    requires 0 < |ring| && from <= to
    ensures |q| == to - from
  {
    seq(to - from, i requires 0 <= i < to - from => ring[(from + i) % |ring|])
  }

  lemma HeldMore<T>(ring: seq<T>, from: nat, to: nat, data: T)
    requires 0 < |ring| && from <= to < from + |ring|
    ensures Held(ring[to % |ring| := data], from, to + 1) == Held(ring, from, to) + [data]
  {
    var q := Held(ring[to % |ring| := data], from, to + 1);
    forall i | 0 <= i < to - from
      ensures q[i] == Held(ring, from, to)[i]
    {
      SlotsDiffer(from + i, to, |ring|);
    }
    assert q[to - from] == data;
  }

  lemma HeldAt<T>(ring: seq<T>, from: nat, to: nat, r: nat)
    requires 0 < |ring| && from <= r < to
    ensures Held(ring, from, to)[r - from] == ring[r % |ring|]
  {
  }

  class SpscDataBridge<T, P> {
    const capacity: nat
    const ring: array<T>
    var write: nat
    var read: nat
    var sequence: nat
    var lastLsn: nat
    var positions: P

    ghost predicate Valid()
      reads this, ring
    {
      0 < capacity == ring.Length && read <= write <= read + capacity
    }

    /** The items between the heads, oldest first. */
    ghost function Contents(): (q: seq<T>)
      requires Valid()
      reads this, ring
      ensures |q| == write - read
    {
      Held(ring[..], read, write)
    }

    constructor (n: nat, blank: T, initial: P)
      requires 0 < n
      ensures Valid() && fresh(ring) && capacity == n && Contents() == []
      ensures sequence == 1 && lastLsn == 0 && positions == initial
    {
      capacity, write, read, sequence, lastLsn, positions := n, 0, 0, 1, 0, initial;
      ring := new T[n](_ => blank);
    }

    method Send(data: T) returns (ok: bool)
      requires Valid()
      modifies this`write, ring
      ensures Valid() && ok == (|old(Contents())| < capacity)
      ensures Contents() == if ok then old(Contents()) + [data] else old(Contents())
    {
      hide Held;
      if write - read >= capacity {
        return false;
      }
      HeldMore(ring[..], read, write, data);
      ring[write % capacity] := data;
      write := write + 1;
      return true;
    }

    /** Processes everything that is queued under one fresh LSN drawn from `clock`. */
    method Consume(c: Config<T, P>, clock: ExecutionContext)
      requires Valid()
      modifies this`read, this`sequence, this`lastLsn, this`positions, clock
      ensures Valid() && Contents() == []
      ensures var q := old(Contents());
              if q == [] then unchanged(this) && unchanged(clock)
              else
                && lastLsn == old(clock.next) && clock.next == old(clock.next) + 1
                && sequence == old(sequence) + 1
                && positions == Batch(c, q, old(clock.next), old(positions), |q|)
    {
      if read == write {
        return;
      }
      hide Held;
      var lsn := clock.ReserveNext();
      sequence := sequence + 1;
      Drain(c, lsn);
      read := write;
      lastLsn := lsn;
    }

    /** The processing loop. */
    method Drain(c: Config<T, P>, lsn: nat)
      requires Valid()
      modifies this`positions
      ensures positions == Batch(c, Contents(), lsn, old(positions), |Contents()|)
    {
      hide Held;
      ghost var q := Contents();
      var r := read;
      while r < write
        invariant read <= r <= write
        invariant positions == Batch(c, q, lsn, old(positions), r - read)
      {
        HeldAt(ring[..], read, write, r);
        positions := c.process(ring[r % capacity], lsn, positions);
        r := r + 1;
      }
    }
  }

  /** The first `n` items of a batch, all under the same LSN. */
  function Batch<T, P>(c: Config<T, P>, q: seq<T>, lsn: nat, from: P, n: nat): P
    requires n <= |q|
  {
    if n == 0 then from else c.process(q[n - 1], lsn, Batch(c, q, lsn, from, n - 1))
  }
}
