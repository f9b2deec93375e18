/** Asynchronous snapshots (include/slabflux/compute/snapshot_engine.hpp:68-156).

    `async_snapshot` copies header and state into a shadow buffer word by word and hands the buffer to the
    kernel, which copies it to the file one word at a time, in any order, at any moment. The kernel completes
    with the number of words it vouches for, counted from the front; that may be fewer than all. `submitted`,
    `done`, `before` and `result` only record the run; no step depends on them. */
module Snapshot {
  import opened Wrappers

  datatype Word<V> = Lsn(lsn: nat) | Cell(value: V)

  /** The arguments of one call. */
  datatype Call<V> = Call(lsn: nat, live: seq<V>)

  /** The header and the state of one call. */
  function Image<V>(call: Call<V>): (w: seq<Word<V>>)
    ensures |w| == |call.live| + 1
  {
    [Lsn(call.lsn)] + seq(|call.live|, i requires 0 <= i < |call.live| => Cell(call.live[i]))
  }

  /** How far `async_snapshot` has come. */
  datatype Stage<V> = Idle | Copying(call: Call<V>, next: nat)

  datatype Action<V> =
    | Begin(call: Call<V>)
    | Advance(sqe: bool)
    | Chunk(at: nat)
    | Complete(count: nat)

  datatype State<V> = State(
    inFlight: bool,
    shadow: seq<Word<V>>,
    stage: Stage<V>,
    pending: nat,
    completions: nat,
    file: seq<Word<V>>,
    submitted: Option<Call<V>>,
    done: set<nat>,
    before: seq<Word<V>>,
    result: Option<nat>)

  function Start<V>(shadow: seq<Word<V>>, file: seq<Word<V>>): State<V> {
    State(false, shadow, Idle, 0, 0, file, None, {}, file, None)
  }

  /** The next step of `async_snapshot`: one word into the shadow buffer, or the submission if the ring
      has a free entry. */
  function Step<V>(s: State<V>, sqe: bool): State<V> {
    if s.stage.Idle? then s
    else if s.stage.next < |Image(s.stage.call)| && s.stage.next < |s.shadow| then
      s.(shadow := s.shadow[s.stage.next := Image(s.stage.call)[s.stage.next]],
         stage := s.stage.(next := s.stage.next + 1))
    else if sqe then
      s.(stage := Idle, inFlight := true, pending := s.pending + 1,
         submitted := Some(s.stage.call), done := {}, before := s.file, result := None)
    else s.(stage := Idle)
  }

  /** One step of the run; an action that is not possible leaves the state as it is. The kernel completes
      with a count only when it has copied that many words. */
  function Next<V>(s: State<V>, a: Action<V>): (s': State<V>)
    ensures |s'.file| == |s.file|
  {
    match a
    case Begin(call) =>
      if !s.stage.Idle? || |call.live| + 1 != |s.shadow| then s
      else if s.inFlight && s.completions == 0 then s
      else
        s.(inFlight := false, completions := if s.inFlight then s.completions - 1 else s.completions,
           stage := Copying(call, 0))
    case Advance(sqe) => Step(s, sqe)
    case Chunk(i) =>
      if s.pending > 0 && i < |s.shadow| && i < |s.file| then
        s.(file := s.file[i := s.shadow[i]], done := s.done + {i})
      else s
    case Complete(count) =>
      if s.pending > 0 && count <= |s.file| && forall i :: 0 <= i < count ==> i in s.done then
        s.(pending := s.pending - 1, completions := s.completions + 1, result := Some(count))
      else s
  }

  function Run<V>(shadow: seq<Word<V>>, file: seq<Word<V>>, actions: seq<Action<V>>, n: nat): (s: State<V>)
    requires n <= |actions|
    ensures |s.file| == |file|
  {
    if n == 0 then Start(shadow, file) else Next(Run(shadow, file, actions, n - 1), actions[n - 1])
  }

  // ---------------------------------------------------------------- the invariant

  /** Word `i` of the file comes from the submitted call if it was copied, and was there before if not. */
  predicate FileOk<V(==)>(s: State<V>) {
    && |s.file| == |s.before|
    && (s.submitted.None? ==> s.done == {} && s.pending == 0)
    && (s.submitted.Some? ==> |Image(s.submitted.value)| == |s.file|)
    && (forall i :: 0 <= i < |s.file| && i in s.done ==>
          s.submitted.Some? && s.file[i] == Image(s.submitted.value)[i])
    && (forall i :: 0 <= i < |s.file| && i !in s.done ==> s.file[i] == s.before[i])
  }

  ghost predicate Inv<V>(s: State<V>) {
    && |s.file| == |s.shadow|
    && s.pending + s.completions == (if s.inFlight then 1 else 0)
    && (s.stage.Copying? ==> !s.inFlight && |Image(s.stage.call)| == |s.shadow|)
    && (s.stage.Copying? ==>
          s.stage.next <= |s.shadow| && s.shadow[..s.stage.next] == Image(s.stage.call)[..s.stage.next])
    && (s.pending > 0 ==> s.submitted.Some? && s.shadow == Image(s.submitted.value))
    && FileOk(s)
    && (s.result.Some? ==> s.result.value <= |s.file| && forall i :: 0 <= i < s.result.value ==> i in s.done)
  }

  lemma NextKeeps<V>(s: State<V>, a: Action<V>)
    requires Inv(s)
    ensures Inv(Next(s, a))
  {
    if a.Advance? && s.stage.Copying? {
      AdvanceKeeps(s, a.sqe);
    } else {
      hide Image;
    }
  }

  lemma AdvanceKeeps<V>(s: State<V>, sqe: bool)
    requires Inv(s) && s.stage.Copying?
    ensures Inv(Step(s, sqe))
  {
    hide Image;
    var s', image := Step(s, sqe), Image(s.stage.call);
    if s.stage.next < |s.shadow| {
      assert s'.shadow[..s'.stage.next] == s.shadow[..s.stage.next] + [image[s.stage.next]];
      assert image[..s'.stage.next] == image[..s.stage.next] + [image[s.stage.next]];
    } else {
      assert s.shadow == s.shadow[..s.stage.next] == image[..s.stage.next] == image;
    }
  }

  lemma {:induction false} RunKeeps<V>(shadow: seq<Word<V>>, file: seq<Word<V>>, actions: seq<Action<V>>, n: nat)
    requires n <= |actions| && |shadow| == |file|
    ensures Inv(Run(shadow, file, actions, n))
  {
    hide Inv, Next;
    if n == 0 {
      StartOk(shadow, file);
    } else {
      RunKeeps(shadow, file, actions, n - 1);
      NextKeeps(Run(shadow, file, actions, n - 1), actions[n - 1]);
    }
  }

  lemma StartOk<V>(shadow: seq<Word<V>>, file: seq<Word<V>>)
    requires |shadow| == |file|
    ensures Inv(Start(shadow, file))
  {
  }

  // ---------------------------------------------------------------- the theorems

  /** At most one write is outstanding, and while it is no step changes the shadow buffer. */
  lemma ShadowStable<V>(shadow: seq<Word<V>>, file: seq<Word<V>>, actions: seq<Action<V>>, n: nat)
    requires n < |actions| && |shadow| == |file|
    ensures var s, s' := Run(shadow, file, actions, n), Run(shadow, file, actions, n + 1);
            s.pending <= 1 && (s.pending > 0 ==> s'.shadow == s.shadow)
  {
    RunKeeps(shadow, file, actions, n);
    assert Run(shadow, file, actions, n + 1) == Next(Run(shadow, file, actions, n), actions[n]);
  }

  // ---------------------------------------------------------------- a call is seen through

  /** A call is taken up exactly if no other is being copied and no write is outstanding; otherwise nothing
      changes. */
  lemma {:induction false} TakenUpIff<V>(shadow: seq<Word<V>>, file: seq<Word<V>>, actions: seq<Action<V>>, n: nat)
    requires n < |actions| && |shadow| == |file| && actions[n].Begin? && |actions[n].call.live| + 1 == |shadow|
    ensures var s, s' := Run(shadow, file, actions, n), Run(shadow, file, actions, n + 1);
            if s.stage.Idle? && s.pending == 0 then
              && s'.stage == Copying(actions[n].call, 0) && !s'.inFlight && s'.pending == 0
              && |s'.shadow| == |shadow|
            else s' == s
  {
    hide Image, FileOk;
    RunKeeps(shadow, file, actions, n);
    assert Run(shadow, file, actions, n + 1) == Next(Run(shadow, file, actions, n), actions[n]);
  }

  function Advances<V>(actions: seq<Action<V>>, m: nat, n: nat): nat
    requires n <= |actions|
    decreases n
  {
    if n <= m then 0 else Advances(actions, m, n - 1) + if actions[n - 1].Advance? then 1 else 0
  }

  lemma CopyMoves<V>(s: State<V>, a: Action<V>, call: Call<V>, k: nat)
    requires s.stage == Copying(call, k) && s.pending == 0 && |Image(call)| == |s.shadow|
    requires a.Advance? ==> k < |s.shadow|
    ensures var s' := Next(s, a);
            s'.stage == Copying(call, if a.Advance? then k + 1 else k) && s'.pending == 0 && |s'.shadow| == |s.shadow|
  {
    hide Image;
  }

  lemma {:induction false} CopyUnderWay<V>(
    shadow: seq<Word<V>>, file: seq<Word<V>>, actions: seq<Action<V>>, m: nat, n: nat)
    requires m < n <= |actions| && |shadow| == |file| && actions[m].Begin? && |actions[m].call.live| + 1 == |shadow|
    requires Run(shadow, file, actions, m).stage.Idle? && Run(shadow, file, actions, m).pending == 0
    requires Advances(actions, m + 1, n) <= |shadow|
    ensures var s := Run(shadow, file, actions, n);
            && s.stage == Copying(actions[m].call, Advances(actions, m + 1, n)) && s.pending == 0
            && |s.shadow| == |shadow|
  {
    hide Image, Next;
    if n == m + 1 {
      TakenUpIff(shadow, file, actions, m);
    } else {
      CopyUnderWay(shadow, file, actions, m, n - 1);
      CopyMoves(Run(shadow, file, actions, n - 1), actions[n - 1], actions[m].call, Advances(actions, m + 1, n - 1));
    }
  }

  lemma Submits<V>(s: State<V>, call: Call<V>, sqe: bool)
    requires Inv(s) && s.stage == Copying(call, |s.shadow|) && s.pending == 0
    ensures var s' := Step(s, sqe);
            && s'.stage.Idle? && s'.shadow == Image(call) && s'.inFlight == sqe
            && s'.pending == (if sqe then 1 else 0)
            && s'.submitted == if sqe then Some(call) else s.submitted
  {
    hide Image, FileOk;
    assert s.shadow == s.shadow[..|s.shadow|] == Image(call)[..|s.shadow|] == Image(call);
  }

  /** A call that is taken up and has copied its words, with any kernel steps and further calls in between, is
      submitted as a whole if and only if the ring then has a free entry. */
  lemma {:induction false} SubmittedIff<V>(
    shadow: seq<Word<V>>, file: seq<Word<V>>, actions: seq<Action<V>>, m: nat, n: nat)
    requires m < n < |actions| && |shadow| == |file| && actions[m].Begin? && |actions[m].call.live| + 1 == |shadow|
    requires Run(shadow, file, actions, m).stage.Idle? && Run(shadow, file, actions, m).pending == 0
    requires Advances(actions, m + 1, n) == |shadow| && actions[n].Advance?
    ensures var s, s' := Run(shadow, file, actions, n), Run(shadow, file, actions, n + 1);
            && s'.stage.Idle? && s'.shadow == Image(actions[m].call)
            && s'.inFlight == actions[n].sqe && s'.pending == (if actions[n].sqe then 1 else 0)
            && s'.submitted == if actions[n].sqe then Some(actions[m].call) else s.submitted
  {
    hide Run, Image, Inv, Step, Advances;
    CopyUnderWay(shadow, file, actions, m, n);
    RunKeeps(shadow, file, actions, n);
    Submits(Run(shadow, file, actions, n), actions[m].call, actions[n].sqe);
    AdvanceRun(shadow, file, actions, n);
  }

  lemma AdvanceRun<V>(shadow: seq<Word<V>>, file: seq<Word<V>>, actions: seq<Action<V>>, n: nat)
    requires n < |actions| && actions[n].Advance?
    ensures Run(shadow, file, actions, n + 1) == Step(Run(shadow, file, actions, n), actions[n].sqe)
  {
    hide Step;
  }

  /** The call being copied, and the one last submitted, were made in the run. */
  ghost predicate Genuine<V>(actions: seq<Action<V>>, n: nat, s: State<V>)
    requires n <= |actions|
  {
    && (s.stage.Copying? ==> Begin(s.stage.call) in actions[..n])
    && (s.submitted.Some? ==> Begin(s.submitted.value) in actions[..n])
  }

  lemma {:induction false} RunGenuine<V>(shadow: seq<Word<V>>, file: seq<Word<V>>, actions: seq<Action<V>>, n: nat)
    requires n <= |actions|
    ensures Genuine(actions, n, Run(shadow, file, actions, n))
  {
    hide Next, Genuine;
    if n == 0 {
      StartGenuine(shadow, file, actions);
    } else {
      RunGenuine(shadow, file, actions, n - 1);
      StepGenuine(actions, n, Run(shadow, file, actions, n - 1));
    }
  }

  lemma StartGenuine<V>(shadow: seq<Word<V>>, file: seq<Word<V>>, actions: seq<Action<V>>)
    ensures Genuine(actions, 0, Start(shadow, file))
  {
  }

  lemma StepGenuine<V>(actions: seq<Action<V>>, n: nat, s: State<V>)
    requires 0 < n <= |actions| && Genuine(actions, n - 1, s)
    ensures Genuine(actions, n, Next(s, actions[n - 1]))
  {
    hide Image;
    assert actions[..n] == actions[..n - 1] + [actions[n - 1]];
  }

  /** The kernel has copied every word of its current or last write. */
  predicate WroteAll<V>(s: State<V>) { forall i :: 0 <= i < |s.file| ==> i in s.done }

  /** Once a write has copied everything, header and state in the file are those of the call that was
      submitted last, and stay so until the next submission. */
  lemma FileIsSubmittedCall<V>(shadow: seq<Word<V>>, file: seq<Word<V>>, actions: seq<Action<V>>, n: nat)
    requires n <= |actions| && |shadow| == |file| && |file| > 0
    requires WroteAll(Run(shadow, file, actions, n))
    ensures var s := Run(shadow, file, actions, n);
            && s.submitted.Some? && s.file == Image(s.submitted.value)
            && Begin(s.submitted.value) in actions[..n]
  {
    hide Run, Image;
    var s := Run(shadow, file, actions, n);
    RunKeeps(shadow, file, actions, n);
    RunGenuine(shadow, file, actions, n);
    assert 0 in s.done;
    assert s.file == Image(s.submitted.value);
  }

  /** What `restore` reads: the words behind the header. */
  function Restored<V>(file: seq<Word<V>>): seq<Word<V>>
    requires |file| > 0
  {
    file[1..]
  }

  /** The file's header is that of the call and what is restored from it is the call's state. */
  predicate RestoresCall<V(==)>(file: seq<Word<V>>, call: Call<V>) {
    && |file| == |call.live| + 1 && file[0] == Lsn(call.lsn)
    && |Restored(file)| == |call.live|
    && forall i :: 0 <= i < |call.live| ==> Restored(file)[i] == Cell(call.live[i])
  }

  lemma ImageRestores<V>(call: Call<V>)
    ensures RestoresCall(Image(call), call)
  {
  }

  /** After a full write, restoring gives the live state of the call submitted last. */
  lemma RestoreAfterWrite<V>(shadow: seq<Word<V>>, file: seq<Word<V>>, actions: seq<Action<V>>, n: nat)
    requires n <= |actions| && |shadow| == |file| && |file| > 0
    requires WroteAll(Run(shadow, file, actions, n))
    ensures var s := Run(shadow, file, actions, n);
            s.submitted.Some? && RestoresCall(s.file, s.submitted.value)
  {
    hide Run, Image, RestoresCall;
    var s := Run(shadow, file, actions, n);
    FileIsSubmittedCall(shadow, file, actions, n);
    ImageRestores(s.submitted.value);
  }

  // ---------------------------------------------------------------- the result of a completion

  /** The words a completion vouches for are those of the submitted call, so a completion with the full
      count leaves the whole call in the file. */
  lemma ResultVouches<V>(shadow: seq<Word<V>>, file: seq<Word<V>>, actions: seq<Action<V>>, n: nat)
    requires n <= |actions| && |shadow| == |file| && |file| > 0
    requires Run(shadow, file, actions, n).result.Some?
    ensures var s := Run(shadow, file, actions, n);
            && s.result.value <= |file|
            && (s.result.value > 0 ==>
                  && s.submitted.Some? && |Image(s.submitted.value)| == |file|
                  && s.file[..s.result.value] == Image(s.submitted.value)[..s.result.value])
            && (s.result.value == |file| ==> s.submitted.Some? && s.file == Image(s.submitted.value))
  {
    hide Run, Image;
    RunKeeps(shadow, file, actions, n);
    var s := Run(shadow, file, actions, n);
    if s.result.value > 0 {
      assert 0 in s.done;
    }
  }

  /** A write of `call` ended with `count`, and the file does not hold that call. */
  ghost predicate Torn<V>(s: State<V>, call: Call<V>, count: nat) {
    s.pending == 0 && s.submitted == Some(call) && s.result == Some(count) && s.file != Image(call)
  }

  /** Some run ends in this state. */
  ghost predicate Reached<V(!new)>(shadow: seq<Word<V>>, file: seq<Word<V>>, s: State<V>) {
    exists actions: seq<Action<V>> :: Run(shadow, file, actions, |actions|) == s
  }

  lemma {:induction false} RunPrefix<V>(
    shadow: seq<Word<V>>, file: seq<Word<V>>, a: seq<Action<V>>, b: seq<Action<V>>, n: nat)
    requires n <= |a| && a <= b
    ensures Run(shadow, file, b, n) == Run(shadow, file, a, n)
  {
    hide Next;
    if n == 0 {
    } else {
      RunPrefix(shadow, file, a, b, n - 1);
    }
  }

  lemma ReachNext<V(!new)>(shadow: seq<Word<V>>, file: seq<Word<V>>, s: State<V>, a: Action<V>)
    requires Reached(shadow, file, s)
    ensures Reached(shadow, file, Next(s, a))
  {
    hide Next;
    var actions: seq<Action<V>> :| Run(shadow, file, actions, |actions|) == s;
    var more := actions + [a];
    RunPrefix(shadow, file, actions, more, |actions|);
    assert Run(shadow, file, more, |more|) == Next(s, a);
  }

  lemma ReachStart<V(!new)>(shadow: seq<Word<V>>, file: seq<Word<V>>)
    ensures Reached(shadow, file, Start(shadow, file))
  {
    assert Run(shadow, file, [], 0) == Start(shadow, file);
  }

  /** A first call has copied its first `m` words. */
  lemma {:induction false} Copy<V(!new)>(shadow: seq<Word<V>>, file: seq<Word<V>>, call: Call<V>, m: nat)
    returns (s: State<V>)
    requires |shadow| == |file| == |call.live| + 1 && m <= |file|
    ensures Reached(shadow, file, s) && Inv(s)
    ensures s.stage == Copying(call, m) && s.file == file && |s.shadow| == |file| && s.pending == 0
    decreases m
  {
    hide Reached, Image, Inv;
    StartOk(shadow, file);
    if m == 0 {
      var s0 := Start(shadow, file);
      ReachStart(shadow, file);
      ReachNext(shadow, file, s0, Begin(call));
      NextKeeps(s0, Begin(call));
      s := Next(s0, Begin(call));
    } else {
      var s0 := Copy(shadow, file, call, m - 1);
      ReachNext(shadow, file, s0, Advance(true));
      NextKeeps(s0, Advance(true));
      s := Next(s0, Advance(true));
    }
  }

  /** The call is submitted and the kernel has copied its first `count` words. */
  lemma {:induction false} Write<V(!new)>(shadow: seq<Word<V>>, file: seq<Word<V>>, call: Call<V>, count: nat)
    returns (s: State<V>)
    requires |shadow| == |file| == |call.live| + 1 && count <= |file|
    ensures Reached(shadow, file, s) && Inv(s)
    ensures s.pending == 1 && s.submitted == Some(call) && s.before == file && |s.file| == |s.shadow| == |file|
    ensures forall i :: i in s.done <==> 0 <= i < count
    decreases count
  {
    hide Reached, Image, Inv;
    if count == 0 {
      var s0 := Copy(shadow, file, call, |file|);
      ReachNext(shadow, file, s0, Advance(true));
      NextKeeps(s0, Advance(true));
      s := Next(s0, Advance(true));
    } else {
      var s0 := Write(shadow, file, call, count - 1);
      ReachNext(shadow, file, s0, Chunk(count - 1));
      NextKeeps(s0, Chunk(count - 1));
      s := Next(s0, Chunk(count - 1));
    }
  }

  /** Completed early, the write leaves the front of the new call over the rest of what was there before:
      at count one the header of the new call over the state of the old one. */
  lemma ShortWriteTears<V(!new)>(shadow: seq<Word<V>>, file: seq<Word<V>>, call: Call<V>, count: nat)
    returns (s: State<V>)
    requires |shadow| == |file| == |call.live| + 1 && count < |file| && file[count] != Image(call)[count]
    ensures Reached(shadow, file, s) && Torn(s, call, count)
    ensures s.completions == 1 && s.file == Image(call)[..count] + file[count..]
  {
    hide Reached, Image;
    var s0 := Write(shadow, file, call, count);
    ReachNext(shadow, file, s0, Complete(count));
    s := Next(s0, Complete(count));
    assert s.file == Image(call)[..count] + file[count..];
    assert s.file[count] != Image(call)[count];
  }

  /** A completion with `count` leaves the whole submitted call in the file, whatever was there before and
      however the run went, if and only if `count` is the full length. The source does not look at the
      count. */
  lemma WholeIffFullCount<V(!new)>(call: Call<V>, count: nat)
    requires count <= |call.live| + 1
    ensures count == |call.live| + 1 <==>
            forall shadow: seq<Word<V>>, file: seq<Word<V>>, actions: seq<Action<V>>, n: nat ::
              |shadow| == |file| == |call.live| + 1 && n <= |actions| ==>
                !Torn(Run(shadow, file, actions, n), call, count)
  {
    hide Run, Image, Torn;
    if count == |call.live| + 1 {
      forall shadow: seq<Word<V>>, file: seq<Word<V>>, actions: seq<Action<V>>, n: nat
        | |shadow| == |file| == |call.live| + 1 && n <= |actions|
        ensures !Torn(Run(shadow, file, actions, n), call, count)
      {
        FullIsWhole(shadow, file, actions, n, call);
      }
    } else {
      SomeTorn(call, count);
    }
  }

  lemma FullIsWhole<V>(shadow: seq<Word<V>>, file: seq<Word<V>>, actions: seq<Action<V>>, n: nat, call: Call<V>)
    requires |shadow| == |file| > 0 && n <= |actions|
    ensures !Torn(Run(shadow, file, actions, n), call, |file|)
  {
    hide Run, Image;
    if Run(shadow, file, actions, n).result.Some? {
      ResultVouches(shadow, file, actions, n);
    }
  }

  lemma SomeTorn<V(!new)>(call: Call<V>, count: nat)
    requires count < |call.live| + 1
    ensures exists shadow: seq<Word<V>>, file: seq<Word<V>>, actions: seq<Action<V>>, n: nat ::
              |shadow| == |file| == |call.live| + 1 && n <= |actions|
              && Torn(Run(shadow, file, actions, n), call, count)
  {
    var file: seq<Word<V>> := seq(|call.live| + 1, i => Lsn(call.lsn + 1));
    var s := ShortWriteTears(file, file, call, count);
    hide Run, Torn;
    var actions: seq<Action<V>> :| Run(file, file, actions, |actions|) == s;
    assert Torn(Run(file, file, actions, |actions|), call, count);
  }

  // ---------------------------------------------------------------- the manager object

  /** The submission and completion queues as the manager sees them. */
  class Ring {
    var pending: nat
    var completions: nat
  }

  class SnapshotManager<V> {
    const shadow: array<Word<V>>
    const ring: Ring
    var inFlight: bool

    ghost predicate Valid()
      reads this, ring
    {
      ring.pending + ring.completions == (if inFlight then 1 else 0)
    }

    constructor (size: nat, r: Ring)
      requires r.pending == 0 && r.completions == 0
      ensures Valid() && fresh(shadow) && shadow.Length == size + 1 && ring == r && !inFlight
    {
      shadow := new Word<V>[size + 1](_ => Lsn(0));
      ring, inFlight := r, false;
    }

    /** Leaves everything alone while the last write is outstanding. Otherwise the buffer is the image of
        this call, submitted if the ring has a free entry. */
    method AsyncSnapshot(live: seq<V>, lsn: nat, sqe: bool)
      requires Valid() && |live| + 1 == shadow.Length
      modifies this, shadow, ring
      ensures Valid()
      ensures old(inFlight && ring.completions == 0) ==>
                inFlight && ring.pending == old(ring.pending) && ring.completions == 0 && shadow[..] == old(shadow[..])
      ensures old(!inFlight || ring.completions > 0) ==>
                && shadow[..] == Image(Call(lsn, live)) && inFlight == sqe
                && ring.pending == (if sqe then 1 else 0) && ring.completions == 0
    {
      if inFlight {
        if ring.completions > 0 {
          ring.completions := ring.completions - 1;
          inFlight := false;
        } else {
          return;
        }
      }
      Fill(live, lsn);
      if sqe {
        ring.pending := ring.pending + 1;
        inFlight := true;
      }
    }

    method Fill(live: seq<V>, lsn: nat)
      requires |live| + 1 == shadow.Length
      modifies shadow
      ensures shadow[..] == Image(Call(lsn, live))
    {
      shadow[0] := Lsn(lsn);
      for i := 0 to |live|
        invariant shadow[..i + 1] == Image(Call(lsn, live))[..i + 1]
      {
        shadow[i + 1] := Cell(live[i]);
      }
    }
  }
}
