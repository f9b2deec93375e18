/** Recovery from the journal (include/slabflux/compute/replay_manager.hpp:68-132) on the engine's LSN and
    event step (include/slabflux/compute/simd_engine.hpp:282, 421-425, 480-487). */
module Replay {
  import opened Wrappers
  import Journal

  /** `on_event`, and the event used for warming up. */
  datatype Config<!E, !D> = Config(onEvent: (D, E, nat) -> D, idle: E)

  datatype Entry<E> = Entry(id: nat, event: E)

  datatype Core<D> = Core(lsn: nat, state: D)

  const WARMUP := 10000

  /** A real event advances the LSN and then runs the domain step. */
  function Processed<E, D>(c: Config<E, D>, k: Core<D>, e: E): Core<D> {
    Core(k.lsn + 1, c.onEvent(k.state, e, k.lsn + 1))
  }

  /** A warm-up event runs the domain step and leaves the LSN alone. */
  function Warmed<E, D>(c: Config<E, D>, k: Core<D>, times: nat): Core<D> {
    if times == 0 then k
    else var w := Warmed(c, k, times - 1); Core(w.lsn, c.onEvent(w.state, c.idle, w.lsn))
  }

  /** The engine after the first `n` entries: an entry counts when its id is beyond the engine's LSN. */
  function Replayed<E, D>(c: Config<E, D>, k: Core<D>, entries: seq<Entry<E>>, n: nat): Core<D>
    requires n <= |entries|
  {
    if n == 0 then k
    else
      var r := Replayed(c, k, entries, n - 1);
      if entries[n - 1].id > r.lsn then Processed(c, r, entries[n - 1].event) else r
  }

  // ---------------------------------------------------------------- which entries are taken

  /** The engine takes entry `i`. */
  predicate Takes<E, D>(c: Config<E, D>, k: Core<D>, entries: seq<Entry<E>>, i: nat)
    requires i < |entries|
  {
    entries[i].id > Replayed(c, k, entries, i).lsn
  }

  /** The entries the engine takes among the first `n`, in order. */
  function Taken<E, D>(c: Config<E, D>, k: Core<D>, entries: seq<Entry<E>>, n: nat): (a: seq<Entry<E>>)
    requires n <= |entries|
    ensures |a| <= n
  {
    if n == 0 then []
    else Taken(c, k, entries, n - 1) + if Takes(c, k, entries, n - 1) then [entries[n - 1]] else []
  }

  /** The engine after the first `m` events of a list, all of them processed. */
  function Fed<E, D>(c: Config<E, D>, k: Core<D>, a: seq<Entry<E>>, m: nat): (r: Core<D>)
    requires m <= |a|
    ensures r.lsn == k.lsn + m
  {
    if m == 0 then k else Processed(c, Fed(c, k, a, m - 1), a[m - 1].event)
  }

  lemma {:induction false} FedSame<E, D>(c: Config<E, D>, k: Core<D>, a: seq<Entry<E>>, b: seq<Entry<E>>, m: nat)
    requires m <= |a| && m <= |b| && forall i :: 0 <= i < m ==> a[i] == b[i]
    ensures Fed(c, k, a, m) == Fed(c, k, b, m)
  {
    if m == 0 {
    } else {
      FedSame(c, k, a, b, m - 1);
    }
  }

  /** Replay is the domain step folded over the entries taken, at the LSNs that follow the engine's own. */
  lemma {:induction false} ReplayFeeds<E, D>(c: Config<E, D>, k: Core<D>, entries: seq<Entry<E>>, n: nat)
    requires n <= |entries|
    ensures Replayed(c, k, entries, n) == Fed(c, k, Taken(c, k, entries, n), |Taken(c, k, entries, n)|)
  {
    if n == 0 {
    } else {
      ReplayFeeds(c, k, entries, n - 1);
      var a, b := Taken(c, k, entries, n - 1), Taken(c, k, entries, n);
      FedSame(c, k, a, b, |a|);
    }
  }

  /** The largest id among the first `n` entries and the engine's own LSN. */
  function Top<E>(lsn: nat, entries: seq<Entry<E>>, n: nat): (t: nat)
    requires n <= |entries|
    ensures lsn <= t && forall i :: 0 <= i < n ==> entries[i].id <= t
  {
    if n == 0 then lsn
    else var t := Top(lsn, entries, n - 1); if entries[n - 1].id > t then entries[n - 1].id else t
  }

  lemma TopStep<E>(lsn: nat, entries: seq<Entry<E>>, n: nat)
    requires n <= |entries|
    ensures n == 0 ==> Top(lsn, entries, n) == lsn
    ensures n > 0 ==> Top(lsn, entries, n) ==
                      var t := Top(lsn, entries, n - 1); if entries[n - 1].id > t then entries[n - 1].id else t
  {
  }

  /** No entry skips an id: each is at most one more than the largest before it. */
  predicate NoGap<E>(lsn: nat, entries: seq<Entry<E>>, n: nat)
    requires n <= |entries|
  {
    forall i :: 0 <= i < n ==> entries[i].id <= Top(lsn, entries, i) + 1
  }

  /** The entries taken carry the ids that follow the engine's LSN, one each and in order, so each is
      processed at the LSN that is its id. */
  predicate Consecutive<E, D>(c: Config<E, D>, k: Core<D>, entries: seq<Entry<E>>, n: nat)
    requires n <= |entries|
  {
    forall j :: 0 <= j < |Taken(c, k, entries, n)| ==> Taken(c, k, entries, n)[j].id == k.lsn + 1 + j
  }

  lemma {:induction false} LsnIsTop<E, D>(c: Config<E, D>, k: Core<D>, entries: seq<Entry<E>>, n: nat)
    requires n <= |entries| && NoGap(k.lsn, entries, n)
    ensures Replayed(c, k, entries, n).lsn == Top(k.lsn, entries, n)
  {
    hide Top;
    TopStep(k.lsn, entries, n);
    if n == 0 {
    } else {
      LsnIsTop(c, k, entries, n - 1);
    }
  }

  /** The last entry, if taken, stands behind the others at the LSN the engine had. */
  lemma LastTaken<E, D>(c: Config<E, D>, k: Core<D>, entries: seq<Entry<E>>, n: nat)
    requires 0 < n <= |entries|
    ensures var a := Taken(c, k, entries, n - 1);
            && Replayed(c, k, entries, n - 1).lsn == k.lsn + |a|
            && (Consecutive(c, k, entries, n) <==>
                Consecutive(c, k, entries, n - 1) &&
                (entries[n - 1].id > k.lsn + |a| ==> entries[n - 1].id == k.lsn + |a| + 1))
  {
    hide Replayed, Fed;
    ReplayFeeds(c, k, entries, n - 1);
    var a, b := Taken(c, k, entries, n - 1), Taken(c, k, entries, n);
    assert forall j :: 0 <= j < |a| ==> b[j] == a[j];
    assert Takes(c, k, entries, n - 1) ==> b[|a|] == entries[n - 1];
  }

  /** Whatever the engine: it takes every id beyond its LSN up to the largest exactly once, each at its own
      LSN, if and only if no entry skips an id. Stale and repeated entries do no harm. */
  lemma {:induction false} ConsecutiveIffNoGap<E, D>(c: Config<E, D>, k: Core<D>, entries: seq<Entry<E>>, n: nat)
    requires n <= |entries|
    ensures Consecutive(c, k, entries, n) <==> NoGap(k.lsn, entries, n)
    ensures Replayed(c, k, entries, n) == Fed(c, k, Taken(c, k, entries, n), |Taken(c, k, entries, n)|)
    ensures NoGap(k.lsn, entries, n) ==> Replayed(c, k, entries, n).lsn == Top(k.lsn, entries, n)
  {
    hide Top, Replayed, Fed;
    ReplayFeeds(c, k, entries, n);
    if n == 0 {
    } else {
      hide Taken, Consecutive;
      ConsecutiveIffNoGap(c, k, entries, n - 1);
      LastTaken(c, k, entries, n);
    }
    if NoGap(k.lsn, entries, n) {
      LsnIsTop(c, k, entries, n);
    }
  }

  /** After a gap the engine takes an entry at an LSN that is not its id, and its repetition once more. */
  lemma GapAppliesTwice<E, D>(c: Config<E, D>, d: D, e: E)
    ensures var entries := [Entry(2, e), Entry(2, e)];
            && !NoGap(0, entries, 2)
            && Replayed(c, Core(0, d), entries, 2) == Core(2, c.onEvent(c.onEvent(d, e, 1), e, 2))
  {
    var entries := [Entry(2, e), Entry(2, e)];
    assert Top(0, entries, 0) == 0;
    assert Replayed(c, Core(0, d), entries, 1) == Core(1, c.onEvent(d, e, 1));
  }

  // ---------------------------------------------------------------- the state that is reached

  /** The engine after the first `n` events of a log whose ids start at one. */
  function Lived<E, D>(c: Config<E, D>, initial: D, log: seq<E>, n: nat): D
    requires n <= |log|
  {
    if n == 0 then initial else c.onEvent(Lived(c, initial, log, n - 1), log[n - 1], n)
  }

  /** Entries that are not stale tell the truth about the log. */
  predicate Faithful<E(==)>(log: seq<E>, lsn: nat, entries: seq<Entry<E>>) {
    forall i :: 0 <= i < |entries| && entries[i].id > lsn ==>
                  entries[i].id <= |log| && entries[i].event == log[entries[i].id - 1]
  }

  /** An engine that holds the first events ends with all events up to the largest id. */
  lemma {:induction false} ReachesTop<E, D>(
    c: Config<E, D>, initial: D, log: seq<E>, k: nat, entries: seq<Entry<E>>, n: nat)
    requires k <= |log| && n <= |entries|
    requires Faithful(log, k, entries) && NoGap(k, entries, n)
    ensures Top(k, entries, n) <= |log|
    ensures Replayed(c, Core(k, Lived(c, initial, log, k)), entries, n)
         == Core(Top(k, entries, n), Lived(c, initial, log, Top(k, entries, n)))
  {
    hide Top;
    TopStep(k, entries, n);
    if n == 0 {
    } else {
      ReachesTop(c, initial, log, k, entries, n - 1);
    }
  }

  ghost predicate Neutral<E, D(!new)>(c: Config<E, D>) {
    forall d: D, lsn: nat :: c.onEvent(d, c.idle, lsn) == d
  }

  lemma {:induction false} WarmupNeutral<E, D(!new)>(c: Config<E, D>, k: Core<D>, times: nat)
    requires Neutral(c)
    ensures Warmed(c, k, times) == k
  {
    if times == 0 {
    } else {
      WarmupNeutral(c, k, times - 1);
    }
  }

  /** What `sync_to_live` leaves behind. */
  function Live<E, D>(c: Config<E, D>, k: Core<D>, entries: seq<Entry<E>>): Core<D> {
    Warmed(c, Replayed(c, k, entries, |entries|), WARMUP)
  }

  /** From an engine that holds the first `k` events, replay over a journal without gaps that reaches the
      end of the log gives the state of the whole log, provided warm-up events change nothing. */
  lemma SyncReachesLog<E, D(!new)>(c: Config<E, D>, initial: D, log: seq<E>, k: nat, entries: seq<Entry<E>>)
    requires Neutral(c) && k <= |log|
    requires Faithful(log, k, entries) && NoGap(k, entries, |entries|) && Top(k, entries, |entries|) == |log|
    ensures Live(c, Core(k, Lived(c, initial, log, k)), entries) == Core(|log|, Lived(c, initial, log, |log|))
  {
    hide Warmed, Replayed;
    ReachesTop(c, initial, log, k, entries, |entries|);
    WarmupNeutral(c, Replayed(c, Core(k, Lived(c, initial, log, k)), entries, |entries|), WARMUP);
  }

  // ---------------------------------------------------------------- after a crash of the bridge

  function Entries<E>(frames: seq<Journal.Frame<E>>): (es: seq<Entry<E>>)
    ensures |es| == |frames|
  {
    seq(|frames|, i requires 0 <= i < |frames| => Entry(frames[i].lsn, frames[i].payload))
  }

  predicate Running<E>(frames: seq<Journal.Frame<E>>, first: nat) {
    forall i :: 0 <= i < |frames| ==> frames[i].lsn == first + i
  }

  /** How many frames a journal that starts at `first` holds for an engine at `lsn` to skip. */
  function Skipped(first: nat, lsn: nat): nat { if first <= lsn then lsn + 1 - first else 0 }

  /** The engine after the frames from `from` up to `n`, all of them processed. */
  function Resumed<E, D>(c: Config<E, D>, k: Core<D>, frames: seq<Journal.Frame<E>>, from: nat, n: nat): (r: Core<D>)
    requires n <= |frames|
    ensures r.lsn == k.lsn + if n <= from then 0 else n - from
  {
    if n <= from then k else Processed(c, Resumed(c, k, frames, from, n - 1), frames[n - 1].payload)
  }

  /** Over consecutive LSNs replay skips the frames that are not beyond the engine and takes all others. */
  lemma {:induction false} ReplayResumes<E, D>(
    c: Config<E, D>, k: Core<D>, frames: seq<Journal.Frame<E>>, first: nat, n: nat)
    requires Running(frames, first) && n <= |frames|
    ensures Replayed(c, k, Entries(frames), n) == Resumed(c, k, frames, Skipped(first, k.lsn), n)
  {
    if n == 0 {
    } else {
      ReplayResumes(c, k, frames, first, n - 1);
      assert Entries(frames)[n - 1].id == first + n - 1;
    }
  }

  /** Whatever the engine and wherever LSNs start: an engine takes every frame of a journal, each at its own
      LSN, if and only if the journal is empty or starts right behind the engine. */
  lemma RecoversAllIffNext<E, D>(c: Config<E, D>, k: Core<D>, frames: seq<Journal.Frame<E>>, first: nat)
    requires Running(frames, first)
    ensures (forall i :: 0 <= i < |frames| ==> TakesAtOwn(c, k, frames, i)) <==> frames == [] || first == k.lsn + 1
  {
    hide Replayed, Resumed, Entries;
    forall i | 0 <= i < |frames|
      ensures TakesAtOwn(c, k, frames, i) <==> first == k.lsn + 1 || (first <= k.lsn && i >= k.lsn + 1 - first)
    {
      TakesAtOwnIff(c, k, frames, first, i);
    }
    assert frames != [] ==> (TakesAtOwn(c, k, frames, 0) <==> first == k.lsn + 1);
  }

  /** The engine takes frame `i` and processes it at the frame's LSN. */
  predicate TakesAtOwn<E, D>(c: Config<E, D>, k: Core<D>, frames: seq<Journal.Frame<E>>, i: nat)
    requires i < |frames|
  {
    Takes(c, k, Entries(frames), i) && Replayed(c, k, Entries(frames), i + 1).lsn == frames[i].lsn
  }

  lemma TakesAtOwnIff<E, D>(c: Config<E, D>, k: Core<D>, frames: seq<Journal.Frame<E>>, first: nat, i: nat)
    requires Running(frames, first) && i < |frames|
    ensures TakesAtOwn(c, k, frames, i) <==> first == k.lsn + 1 || (first <= k.lsn && i >= k.lsn + 1 - first)
  {
    hide Replayed, Resumed;
    ReplayResumes(c, k, frames, first, i);
    ReplayResumes(c, k, frames, first, i + 1);
    assert Entries(frames)[i].id == first + i;
  }

  /** Wherever the bridge died and whatever its first LSN: `sync_to_live` on any engine leaves the journaled
      frames beyond the engine's LSN, the one the crash may have cut off included, processed in order on top
      of what the engine held, and nothing else. */
  lemma CrashRecovery<E, D(!new)>(
    c: Config<E, D>, k: Core<D>,
    j: Journal.Config<E, D>, garbage: Journal.Frame<E>, actions: seq<Journal.Action<E>>, n: nat)
    requires n <= |actions| && Neutral(c)
    ensures var journal := Journal.Run(j, garbage, actions, n).journal;
            Live(c, k, Entries(journal)) == Resumed(c, k, journal, Skipped(j.first, k.lsn), |journal|)
  {
    hide Warmed, Replayed, Resumed, Journal.Run, Journal.Folded;
    Journal.WriteAhead(j, garbage, actions, n);
    var journal := Journal.Run(j, garbage, actions, n).journal;
    ReplayResumes(c, k, journal, j.first, |journal|);
    WarmupNeutral(c, Replayed(c, k, Entries(journal), |journal|), WARMUP);
  }

  /** With LSNs from one, an engine that holds the first `held` frames resumes to the state of all of them. */
  lemma {:induction false} ResumesFolded<E, D>(
    c: Config<E, D>, j: Journal.Config<E, D>, frames: seq<Journal.Frame<E>>, held: nat, n: nat)
    requires held <= n <= |frames| && j.apply == c.onEvent && Running(frames, 1)
    ensures Resumed(c, Core(held, Journal.Folded(j, frames, held)), frames, held, n)
         == Core(n, Journal.Folded(j, frames, n))
  {
    if n == held {
    } else {
      ResumesFolded(c, j, frames, held, n - 1);
    }
  }

  /** With LSNs from one, an engine that holds any number of journaled frames, none included, is brought to
      the state in which every journaled frame has been executed. */
  lemma RecoversJournal<E, D(!new)>(
    c: Config<E, D>,
    j: Journal.Config<E, D>, garbage: Journal.Frame<E>, actions: seq<Journal.Action<E>>, n: nat, held: nat)
    requires n <= |actions| && j.apply == c.onEvent && j.first == 1 && Neutral(c)
    requires held <= |Journal.Run(j, garbage, actions, n).journal|
    ensures var journal := Journal.Run(j, garbage, actions, n).journal;
            Live(c, Core(held, Journal.Folded(j, journal, held)), Entries(journal)) ==
            Core(|journal|, Journal.Folded(j, journal, |journal|))
  {
    hide Warmed, Replayed, Resumed, Live, Journal.Run, Journal.Folded;
    var journal := Journal.Run(j, garbage, actions, n).journal;
    Journal.WriteAhead(j, garbage, actions, n);
    CrashRecovery(c, Core(held, Journal.Folded(j, journal, held)), j, garbage, actions, n);
    ResumesFolded(c, j, journal, held, |journal|);
  }

  lemma {:induction false} ResumesFromSecond<E, D>(
    c: Config<E, D>, j: Journal.Config<E, D>, frames: seq<Journal.Frame<E>>, n: nat)
    requires 0 < n <= |frames| && j.apply == c.onEvent && Running(frames, 0)
    ensures Resumed(c, Core(0, j.initial), frames, 1, n) == Core(n - 1, Journal.Folded(j, frames[1..], n - 1))
  {
    if n == 1 {
    } else {
      ResumesFromSecond(c, j, frames, n - 1);
      assert frames[1..][n - 2] == frames[n - 1];
    }
  }

  /** With LSNs from zero, as the node context hands them out, a fresh engine is brought to the state in
      which every journaled frame but the first has been executed. */
  lemma FirstFrameLost<E, D(!new)>(
    c: Config<E, D>, j: Journal.Config<E, D>, garbage: Journal.Frame<E>, actions: seq<Journal.Action<E>>, n: nat)
    requires n <= |actions| && j.apply == c.onEvent && j.first == 0 && Neutral(c)
    ensures var journal := Journal.Run(j, garbage, actions, n).journal;
            Live(c, Core(0, j.initial), Entries(journal)) ==
            if journal == [] then Core(0, j.initial)
            else Core(|journal| - 1, Journal.Folded(j, journal[1..], |journal| - 1))
  {
    hide Warmed, Replayed, Live, Journal.Run, Journal.Folded;
    var journal := Journal.Run(j, garbage, actions, n).journal;
    Journal.WriteAhead(j, garbage, actions, n);
    CrashRecovery(c, Core(0, j.initial), j, garbage, actions, n);
    if journal == [] {
    } else {
      ResumesFromSecond(c, j, journal, |journal|);
    }
  }

  // ---------------------------------------------------------------- the manager object

  datatype SystemState = INIT | REPLAYING | WARMING | LIVE

  class Engine<E, D> {
    const config: Config<E, D>
    var core: Core<D>

    constructor (c: Config<E, D>, k: Core<D>)
      ensures config == c && core == k
    {
      config, core := c, k;
    }

    method ProcessEvent(e: E)
      modifies this
      ensures core == Processed(config, old(core), e)
    {
      core := core.(lsn := core.lsn + 1);
      core := core.(state := config.onEvent(core.state, e, core.lsn));
    }

    method ProcessWarmupGhost()
      modifies this
      ensures core == Core(old(core).lsn, config.onEvent(old(core).state, config.idle, old(core).lsn))
    {
      core := core.(state := config.onEvent(core.state, config.idle, core.lsn));
    }
  }

  class Reader<E> {
    const entries: seq<Entry<E>>
    var position: nat

    constructor (es: seq<Entry<E>>)
      ensures entries == es && position == 0
    {
      entries, position := es, 0;
    }

    method ReadNext() returns (e: Option<Entry<E>>)
      requires position <= |entries|
      modifies this
      ensures old(position) == |entries| ==> e == None && position == old(position)
      ensures old(position) < |entries| ==> e == Some(entries[old(position)]) && position == old(position) + 1
    {
      if position == |entries| {
        return None;
      }
      e := Some(entries[position]);
      position := position + 1;
    }
  }

  class ReplayManager<E, D> {
    const engine: Engine<E, D>
    const journal: Reader<E>
    var state: SystemState

    constructor (e: Engine<E, D>, j: Reader<E>)
      ensures engine == e && journal == j && state == INIT
    {
      engine, journal, state := e, j, INIT;
    }

    method SyncToLive()
      requires journal.position == 0
      modifies this, engine, journal
      ensures state == LIVE && journal.position == |journal.entries|
      ensures engine.core == Live(engine.config, old(engine.core), journal.entries)
    {
      hide Warmed, Replayed;
      state := REPLAYING;
      ReplayAll();
      state := WARMING;
      PrimeSilicon();
      state := LIVE;
    }

    method ReplayAll()
      requires journal.position == 0
      modifies engine, journal
      ensures journal.position == |journal.entries|
      ensures engine.core == Replayed(engine.config, old(engine.core), journal.entries, |journal.entries|)
    {
      while true
        invariant journal.position <= |journal.entries|
        invariant engine.core == Replayed(engine.config, old(engine.core), journal.entries, journal.position)
        decreases |journal.entries| - journal.position
      {
        var event := journal.ReadNext();
        if event.None? {
          break;
        }
        if event.value.id > engine.core.lsn {
          engine.ProcessEvent(event.value.event);
        }
      }
    }

    method PrimeSilicon()
      modifies engine
      ensures engine.core == Warmed(engine.config, old(engine.core), WARMUP)
    {
      for i := 0 to WARMUP
        invariant engine.core == Warmed(engine.config, old(engine.core), i)
      {
        engine.ProcessWarmupGhost();
      }
    }
  }
}
