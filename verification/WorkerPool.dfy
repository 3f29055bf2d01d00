/** The replay workers: any number of threads sharing an atomic counter and a failure flag
    (reference/tg_cdem_abel_artifact_terminal.cpp, lines 659-712;
    reference/tg_cdem_abel_measured_workload.cpp, lines 664-714). */
module WorkerPool {

  // ---- The machine ------------------------------------------------------------------

  /** Where a worker stands: before reading the flag, before the fetch-and-add, holding an index it has
      not compared yet, replaying a row, about to raise the flag, or returned. */
  datatype Worker = Looping | Claiming | Claimed(index: nat) | Running(index: nat) | Failing | Exited

  datatype Replay = Replay(index: nat, passed: bool)

  /** The shared counter and flag, the workers, and the replays completed so far. */
  datatype Pool = Pool(next: nat, failed: bool, workers: seq<Worker>, log: seq<Replay>)

  ghost predicate Start(s: Pool, count: nat) {
    && s.next == 0 && !s.failed && s.log == [] && |s.workers| == count
    && forall w: nat | w < count :: s.workers[w] == Looping
  }

  function Move(s: Pool, w: nat, to: Worker): Pool
    requires w < |s.workers|
  {
    s.(workers := s.workers[w := to])
  }

  /** One atomic action of worker w. A replay passes only if the row is valid; it may always fail. */
  ghost predicate Step(rows: nat, valid: nat -> bool, s: Pool, t: Pool, w: nat) {
    w < |s.workers| &&
    match s.workers[w]
    case Looping => t == Move(s, w, if s.failed then Exited else Claiming)
    case Claiming => t == Move(s, w, Claimed(s.next)).(next := s.next + 1)
    case Claimed(index) => t == Move(s, w, if index >= rows then Exited else Running(index))
    case Running(index) =>
      || (valid(index) && t == Move(s, w, Looping).(log := s.log + [Replay(index, true)]))
      || t == Move(s, w, Failing).(log := s.log + [Replay(index, false)])
    case Failing => t == Move(s, w, Exited).(failed := true)
    case Exited => false
  }

  /** An interleaving: each state follows from the one before by an action of some worker. */
  ghost predicate Interleaving(rows: nat, valid: nat -> bool, count: nat, run: seq<Pool>, schedule: seq<nat>) {
    && |run| == |schedule| + 1 && Start(run[0], count)
    && forall i: nat | i < |schedule| :: Step(rows, valid, run[i], run[i + 1], schedule[i])
  }

  /** All workers have joined. */
  ghost predicate AllExited(s: Pool) {
    forall w: nat | w < |s.workers| :: s.workers[w] == Exited
  }

  // ---- The invariant ------------------------------------------------------------------

  predicate Holds(worker: Worker, index: nat) {
    worker == Claimed(index) || worker == Running(index)
  }

  ghost predicate Held(s: Pool, index: nat) {
    exists w: nat :: w < |s.workers| && Holds(s.workers[w], index)
  }

  ghost predicate Logged(s: Pool, index: nat) {
    exists i: nat :: i < |s.log| && s.log[i].index == index
  }

  ghost predicate OneHolder(s: Pool) {
    forall v: nat, w: nat, index: nat |
      v < |s.workers| && w < |s.workers| && Holds(s.workers[v], index) && Holds(s.workers[w], index) :: v == w
  }

  ghost predicate OneReplay(s: Pool) {
    forall i: nat, j: nat | i < |s.log| && j < |s.log| && s.log[i].index == s.log[j].index :: i == j
  }

  /** An index below the counter belongs to one worker or to one completed replay, no other to any. */
  ghost predicate Exclusive(s: Pool) {
    && OneHolder(s) && OneReplay(s)
    && (forall index: nat | Held(s, index) :: index < s.next && !Logged(s, index))
    && (forall index: nat | Logged(s, index) :: index < s.next)
  }

  ghost predicate Covered(rows: nat, s: Pool) {
    forall index: nat | index < s.next && index < rows :: Held(s, index) || Logged(s, index)
  }

  /** A failed replay raises the flag, or its worker is about to; passed replays were valid. */
  ghost predicate Honest(rows: nat, valid: nat -> bool, s: Pool) {
    && (forall i: nat | i < |s.log| :: s.log[i].index < rows)
    && (forall w: nat | w < |s.workers| && s.workers[w].Running? :: s.workers[w].index < rows)
    && (forall i: nat | i < |s.log| && s.log[i].passed :: valid(s.log[i].index))
    && ((exists i: nat :: i < |s.log| && !s.log[i].passed) ==> s.failed || Failing in s.workers)
  }

  /** A worker returns only when the flag is up or the rows are used up. */
  ghost predicate ExitsJustified(rows: nat, s: Pool) {
    forall w: nat | w < |s.workers| ::
      && (s.workers[w] == Exited ==> s.failed || s.next >= rows)
      && (s.workers[w] == Failing ==> exists i: nat :: i < |s.log| && !s.log[i].passed)
  }

  /** Workers that have taken their last index. */
  function Spent(rows: nat, workers: seq<Worker>): nat {
    if workers == [] then 0
    else Spent(rows, workers[..|workers| - 1]) + (if IsSpent(rows, workers[|workers| - 1]) then 1 else 0)
  }

  predicate IsSpent(rows: nat, worker: Worker) {
    worker == Exited || (worker.Claimed? && worker.index >= rows)
  }

  ghost predicate Invariant(rows: nat, valid: nat -> bool, s: Pool) {
    && Exclusive(s) && Covered(rows, s) && Honest(rows, valid, s) && ExitsJustified(rows, s)
    && s.next <= rows + Spent(rows, s.workers)
  }

  lemma {:induction false} SpentUpdate(rows: nat, workers: seq<Worker>, w: nat, to: Worker)
    requires w < |workers|
    ensures Spent(rows, workers[w := to]) + (if IsSpent(rows, workers[w]) then 1 else 0)
      == Spent(rows, workers) + (if IsSpent(rows, to) then 1 else 0)
    decreases |workers|
  {
    var last := |workers| - 1;
    if w < last {
      SpentUpdate(rows, workers[..last], w, to);
      assert workers[w := to][..last] == workers[..last][w := to];
    } else {
      assert workers[w := to][..last] == workers[..last];
    }
  }

  lemma {:induction false} SpentAtMost(rows: nat, workers: seq<Worker>)
    ensures Spent(rows, workers) <= |workers|
  {
    if workers == [] {
    } else {
      SpentAtMost(rows, workers[..|workers| - 1]);
    }
  }

  // ---- Every step keeps it ----------------------------------------------------------------

  lemma HeldAfter(s: Pool, t: Pool, w: nat, to: Worker, index: nat)
    requires w < |s.workers| && t.workers == s.workers[w := to]
    ensures Held(t, index) ==> Held(s, index) || Holds(to, index)
    ensures Held(s, index) ==> Held(t, index) || Holds(s.workers[w], index)
    ensures Holds(to, index) ==> Held(t, index)
  {
    if Holds(to, index) { assert Holds(t.workers[w], index); }
    if Held(s, index) {
      var v: nat :| v < |s.workers| && Holds(s.workers[v], index);
      if v != w { assert Holds(t.workers[v], index); }
    }
  }

  lemma LoggedAfter(s: Pool, t: Pool, entry: Replay, index: nat)
    requires t.log == s.log + [entry]
    ensures Logged(t, index) <==> Logged(s, index) || entry.index == index
  {
    if Logged(s, index) {
      var i: nat :| i < |s.log| && s.log[i].index == index;
      assert t.log[i].index == index;
    }
    assert t.log[|s.log|] == entry;
  }

  lemma SameLog(s: Pool, t: Pool, index: nat)
    requires t.log == s.log
    ensures Logged(t, index) <==> Logged(s, index)
  {
  }

  lemma StartInvariant(rows: nat, valid: nat -> bool, s: Pool, count: nat)
    requires Start(s, count)
    ensures Invariant(rows, valid, s)
  {
  }

  lemma HeldBelow(s: Pool, w: nat, index: nat)
    requires Exclusive(s) && w < |s.workers| && Holds(s.workers[w], index)
    ensures Held(s, index) && index < s.next && !Logged(s, index)
  {
  }

  /** A worker that takes no index, or keeps the one it has. */
  lemma MoveKeepsExclusive(rows: nat, s: Pool, t: Pool, w: nat, to: Worker)
    requires Exclusive(s) && Covered(rows, s) && w < |s.workers|
    requires t.workers == s.workers[w := to] && t.next == s.next && t.log == s.log
    requires forall index: nat | Holds(to, index) :: Holds(s.workers[w], index)
    requires forall index: nat | Holds(s.workers[w], index) && index < rows :: Holds(to, index)
    ensures Exclusive(t) && Covered(rows, t)
  {
    forall index: nat
      ensures Held(t, index) ==> Held(s, index)
      ensures Held(s, index) && index < rows ==> Held(t, index)
      ensures Logged(t, index) <==> Logged(s, index)
    {
      HeldAfter(s, t, w, to, index);
      SameLog(s, t, index);
    }
  }

  lemma ClaimKeepsExclusive(rows: nat, s: Pool, t: Pool, w: nat)
    requires Exclusive(s) && Covered(rows, s) && w < |s.workers| && s.workers[w] == Claiming
    requires t.workers == s.workers[w := Claimed(s.next)] && t.next == s.next + 1 && t.log == s.log
    ensures Exclusive(t) && Covered(rows, t)
  {
    forall index: nat
      ensures Held(t, index) <==> Held(s, index) || index == s.next
      ensures Logged(t, index) <==> Logged(s, index)
    {
      HeldAfter(s, t, w, Claimed(s.next), index);
      SameLog(s, t, index);
    }
    forall v: nat | v < |s.workers|
      ensures !Holds(s.workers[v], s.next)
    {
      if Holds(s.workers[v], s.next) { HeldBelow(s, v, s.next); }
    }
  }

  lemma CompleteKeepsExclusive(rows: nat, s: Pool, t: Pool, w: nat, to: Worker, entry: Replay)
    requires Exclusive(s) && Covered(rows, s) && w < |s.workers| && s.workers[w] == Running(entry.index)
    requires t.workers == s.workers[w := to] && t.next == s.next && t.log == s.log + [entry]
    requires to == Looping || to == Failing
    ensures Exclusive(t) && Covered(rows, t)
  {
    HeldBelow(s, w, entry.index);
    forall index: nat
      ensures Held(t, index) ==> Held(s, index)
      ensures Held(s, index) ==> Held(t, index) || index == entry.index
      ensures Logged(t, index) <==> Logged(s, index) || index == entry.index
    {
      HeldAfter(s, t, w, to, index);
      LoggedAfter(s, t, entry, index);
    }
    assert !Held(t, entry.index);
    assert forall i: nat | i < |s.log| :: Logged(s, s.log[i].index);
  }

  lemma StepExclusive(rows: nat, valid: nat -> bool, s: Pool, t: Pool, w: nat)
    requires Exclusive(s) && Covered(rows, s) && Step(rows, valid, s, t, w)
    ensures Exclusive(t) && Covered(rows, t)
  {
    if s.workers[w].Claiming? {
      ClaimKeepsExclusive(rows, s, t, w);
    } else if s.workers[w].Running? {
      CompleteKeepsExclusive(rows, s, t, w, t.workers[w], t.log[|s.log|]);
    } else {
      MoveKeepsExclusive(rows, s, t, w, t.workers[w]);
    }
  }

  lemma FailingStays(s: Pool, t: Pool, w: nat, to: Worker)
    requires w < |s.workers| && t.workers == s.workers[w := to]
    ensures Failing in s.workers ==> Failing in t.workers || s.workers[w] == Failing
    ensures to == Failing ==> Failing in t.workers
  {
    if Failing in s.workers {
      var v: nat :| v < |s.workers| && s.workers[v] == Failing;
      if v != w { assert t.workers[v] == Failing; }
    }
    if to == Failing { assert t.workers[w] == Failing; }
  }

  lemma FailuresStay(s: Pool, t: Pool, i: nat)
    requires |s.log| <= |t.log| && t.log[..|s.log|] == s.log && i < |s.log| && !s.log[i].passed
    ensures exists j: nat :: j < |t.log| && !t.log[j].passed
  {
    assert !t.log[i].passed;
  }

  lemma StepHonest(rows: nat, valid: nat -> bool, s: Pool, t: Pool, w: nat)
    requires Honest(rows, valid, s) && Step(rows, valid, s, t, w)
    ensures Honest(rows, valid, t)
  {
    FailingStays(s, t, w, t.workers[w]);
  }

  lemma StepExits(rows: nat, valid: nat -> bool, s: Pool, t: Pool, w: nat)
    requires Exclusive(s) && ExitsJustified(rows, s) && Step(rows, valid, s, t, w)
    ensures ExitsJustified(rows, t)
  {
    if s.workers[w].Claimed? { HeldBelow(s, w, s.workers[w].index); }
    forall v: nat | v < |t.workers| && t.workers[v] == Failing
      ensures exists i: nat :: i < |t.log| && !t.log[i].passed
    {
      if v != w {
        var i: nat :| i < |s.log| && !s.log[i].passed;
        FailuresStay(s, t, i);
      } else {
        assert !t.log[|s.log|].passed;
      }
    }
  }

  lemma StepCounter(rows: nat, valid: nat -> bool, s: Pool, t: Pool, w: nat)
    requires s.next <= rows + Spent(rows, s.workers) && Step(rows, valid, s, t, w)
    ensures t.next <= rows + Spent(rows, t.workers)
  {
    SpentUpdate(rows, s.workers, w, t.workers[w]);
  }

  lemma StepKeepsInvariant(rows: nat, valid: nat -> bool, s: Pool, t: Pool, w: nat)
    requires Invariant(rows, valid, s) && Step(rows, valid, s, t, w)
    ensures Invariant(rows, valid, t)
  {
    StepExclusive(rows, valid, s, t, w);
    StepHonest(rows, valid, s, t, w);
    StepExits(rows, valid, s, t, w);
    StepCounter(rows, valid, s, t, w);
  }

  lemma {:induction false} RunKeepsInvariant(
    rows: nat, valid: nat -> bool, count: nat, run: seq<Pool>, schedule: seq<nat>, i: nat)
    requires Interleaving(rows, valid, count, run, schedule) && i < |run|
    ensures Invariant(rows, valid, run[i]) && |run[i].workers| == count
  {
    if i == 0 {
      StartInvariant(rows, valid, run[0], count);
    } else {
      RunKeepsInvariant(rows, valid, count, run, schedule, i - 1);
      StepKeepsInvariant(rows, valid, run[i - 1], run[i], schedule[i - 1]);
    }
  }

  // ---- Safety ---------------------------------------------------------------------------

  /** NO INDEX TWICE. In every state of every interleaving no row is replayed twice or held by two
      workers, and the counter never runs more than one past the rows for each worker. */
  lemma NoIndexTwice(rows: nat, valid: nat -> bool, count: nat, run: seq<Pool>, schedule: seq<nat>, i: nat)
    requires Interleaving(rows, valid, count, run, schedule) && i < |run|
    ensures var s := run[i];
      && (forall a: nat, b: nat | a < b < |s.log| :: s.log[a].index != s.log[b].index)
      && (forall a: nat, w: nat | a < |s.log| && w < |s.workers| :: !Holds(s.workers[w], s.log[a].index))
      && s.next <= rows + count
  {
    RunKeepsInvariant(rows, valid, count, run, schedule, i);
    var s := run[i];
    SpentAtMost(rows, s.workers);
    forall a: nat, w: nat | a < |s.log| && w < |s.workers|
      ensures !Holds(s.workers[w], s.log[a].index)
    {
      var index := s.log[a].index;
      assert Logged(s, index) && !Held(s, index);
    }
  }

  ghost predicate ReplayedOnce(s: Pool, index: nat) {
    exists a: nat :: a < |s.log| && s.log[a] == Replay(index, true)
      && forall b: nat | b < |s.log| && s.log[b].index == index :: b == a
  }

  /** EVERY ROW ONCE. When all workers have joined and the flag is down, every row was replayed exactly
      once, passed, and is valid, and the counter is past the rows. */
  lemma EveryRowOnce(rows: nat, valid: nat -> bool, count: nat, run: seq<Pool>, schedule: seq<nat>, s: Pool)
    requires count >= 1 && Interleaving(rows, valid, count, run, schedule) && s == run[|schedule|]
    requires AllExited(s) && !s.failed
    ensures s.next >= rows && |s.log| == rows
    ensures forall index: nat | index < rows :: ReplayedOnce(s, index) && valid(index)
  {
    RunKeepsInvariant(rows, valid, count, run, schedule, |schedule|);
    assert s.workers[0] == Exited;
    forall index: nat
      ensures !Held(s, index)
    {
    }
    forall index: nat | index < rows
      ensures ReplayedOnce(s, index) && valid(index)
    {
      assert Logged(s, index);
      var a: nat :| a < |s.log| && s.log[a].index == index;
      assert s.log[a].passed;
    }
    LogLength(rows, s);
  }

  function Indices(log: seq<Replay>): set<nat> {
    set i | 0 <= i < |log| :: log[i].index
  }

  function Range(n: nat): (r: set<nat>)
    ensures |r| == n && forall i: nat :: i in r <==> i < n
  {
    if n == 0 then {} else Range(n - 1) + {n - 1}
  }

  lemma {:induction false} DistinctCount(log: seq<Replay>)
    requires forall i: nat, j: nat | i < |log| && j < |log| && log[i].index == log[j].index :: i == j
    ensures |Indices(log)| == |log|
  {
    if log == [] {
    } else {
      var last := |log| - 1;
      DistinctCount(log[..last]);
      assert Indices(log) == Indices(log[..last]) + {log[last].index};
      assert log[last].index !in Indices(log[..last]);
    }
  }

  lemma LogLength(rows: nat, s: Pool)
    requires Exclusive(s)
    requires forall index: nat | index < rows :: Logged(s, index)
    requires forall i: nat | i < |s.log| :: s.log[i].index < rows
    ensures |s.log| == rows
  {
    DistinctCount(s.log);
    assert Indices(s.log) == Range(rows) by {
      forall index: nat | index < rows
        ensures index in Indices(s.log)
      {
        assert Logged(s, index);
      }
    }
  }

  // ---- Termination -------------------------------------------------------------------------

  function Weight(worker: Worker): nat {
    match worker
    case Looping => 2
    case Claiming => 1
    case Claimed(_) => 4
    case Running(_) => 3
    case Failing => 1
    case Exited => 0
  }

  function Weights(workers: seq<Worker>): nat {
    if workers == [] then 0 else Weights(workers[..|workers| - 1]) + Weight(workers[|workers| - 1])
  }

  lemma {:induction false} WeightsUpdate(workers: seq<Worker>, w: nat, to: Worker)
    requires w < |workers|
    ensures Weights(workers[w := to]) + Weight(workers[w]) == Weights(workers) + Weight(to)
    decreases |workers|
  {
    var last := |workers| - 1;
    if w < last {
      WeightsUpdate(workers[..last], w, to);
      assert workers[w := to][..last] == workers[..last][w := to];
    } else {
      assert workers[w := to][..last] == workers[..last];
    }
  }

  /** The work left: indices still to hand out, and what the workers have in hand. */
  function Remaining(rows: nat, s: Pool): int {
    5 * (rows + |s.workers| - s.next) + Weights(s.workers)
  }

  lemma {:induction false} FullWeights(workers: seq<Worker>)
    requires forall w: nat | w < |workers| :: workers[w] == Looping
    ensures Weights(workers) == 2 * |workers|
  {
    if workers == [] {
    } else {
      FullWeights(workers[..|workers| - 1]);
    }
  }

  /** EVERY INTERLEAVING ENDS. No schedule has more than 5 rows + 7 workers actions, and a state from
      which no worker can act is one in which all have joined. */
  lemma {:induction false} InterleavingsEnd(
    rows: nat, valid: nat -> bool, count: nat, run: seq<Pool>, schedule: seq<nat>, i: nat)
    requires Interleaving(rows, valid, count, run, schedule) && i <= |schedule|
    ensures |run[i].workers| == count
    ensures i + Remaining(rows, run[i]) <= 5 * rows + 7 * count
    ensures i <= 5 * rows + 7 * count
  {
    if i == 0 {
      FullWeights(run[0].workers);
    } else {
      InterleavingsEnd(rows, valid, count, run, schedule, i - 1);
      WeightsUpdate(run[i - 1].workers, schedule[i - 1], run[i].workers[schedule[i - 1]]);
    }
    NoIndexTwice(rows, valid, count, run, schedule, i);
  }

  lemma StuckMeansJoined(rows: nat, valid: nat -> bool, s: Pool)
    requires forall t: Pool, w: nat :: !Step(rows, valid, s, t, w)
    ensures AllExited(s)
  {
    forall w: nat | w < |s.workers|
      ensures s.workers[w] == Exited
    {
      match s.workers[w]
      case Looping => assert Step(rows, valid, s, Move(s, w, if s.failed then Exited else Claiming), w);
      case Claiming => assert Step(rows, valid, s, Move(s, w, Claimed(s.next)).(next := s.next + 1), w);
      case Claimed(index) =>
        assert Step(rows, valid, s, Move(s, w, if index >= rows then Exited else Running(index)), w);
      case Running(index) =>
        assert Step(rows, valid, s, Move(s, w, Failing).(log := s.log + [Replay(index, false)]), w);
      case Failing => assert Step(rows, valid, s, Move(s, w, Exited).(failed := true), w);
      case Exited =>
    }
  }

  // ---- Success can be reached ---------------------------------------------------------------

  lemma Extended(
    rows: nat, valid: nat -> bool, count: nat, run: seq<Pool>, schedule: seq<nat>, w: nat, t: Pool)
    requires Interleaving(rows, valid, count, run, schedule) && Step(rows, valid, run[|schedule|], t, w)
    ensures Interleaving(rows, valid, count, run + [t], schedule + [w])
    ensures (run + [t])[|schedule + [w]|] == t
  {
    var longer, steps := run + [t], schedule + [w];
    forall i: nat | i < |steps|
      ensures Step(rows, valid, longer[i], longer[i + 1], steps[i])
    {
      if i < |schedule| { assert longer[i] == run[i] && longer[i + 1] == run[i + 1] && steps[i] == schedule[i]; }
    }
  }

  /** The first workers have returned, the others have not begun. */
  ghost predicate Between(s: Pool, count: nat, exited: nat, next: nat) {
    && |s.workers| == count && s.next == next && !s.failed
    && forall w: nat | w < count :: s.workers[w] == if w < exited then Exited else Looping
  }

  /** A worker reads the flag, takes the next index and compares it. */
  lemma TakeIndex(
    rows: nat, valid: nat -> bool, count: nat, run: seq<Pool>, schedule: seq<nat>, w: nat, next: nat)
    returns (longer: seq<Pool>, steps: seq<nat>)
    requires Interleaving(rows, valid, count, run, schedule)
    requires var s := run[|schedule|];
      w < |s.workers| == count && s.workers[w] == Looping && s.next == next && !s.failed
    ensures Interleaving(rows, valid, count, longer, steps)
    ensures longer[|steps|]
      == Move(run[|schedule|], w, if next >= rows then Exited else Running(next)).(next := next + 1)
  {
    var s := run[|schedule|];
    var s1 := Move(s, w, Claiming);
    var s2 := Move(s1, w, Claimed(next)).(next := next + 1);
    var s3 := Move(s2, w, if next >= rows then Exited else Running(next));
    Extended(rows, valid, count, run, schedule, w, s1);
    Extended(rows, valid, count, run + [s1], schedule + [w], w, s2);
    Extended(rows, valid, count, run + [s1] + [s2], schedule + [w] + [w], w, s3);
    longer, steps := run + [s1] + [s2] + [s3], schedule + [w] + [w] + [w];
    assert s3.workers == s.workers[w := if next >= rows then Exited else Running(next)];
  }

  /** One worker can replay the first rows, one after the other. */
  lemma {:induction false} ReplaysPossible(rows: nat, valid: nat -> bool, count: nat, done: nat)
    returns (run: seq<Pool>, schedule: seq<nat>)
    requires count >= 1 && done <= rows && forall index: nat | index < rows :: valid(index)
    ensures Interleaving(rows, valid, count, run, schedule) && Between(run[|schedule|], count, 0, done)
    decreases done
  {
    if done == 0 {
      run, schedule := [Pool(0, false, seq(count, _ => Looping), [])], [];
    } else {
      var index := done - 1;
      var before, first := ReplaysPossible(rows, valid, count, index);
      run, schedule := TakeIndex(rows, valid, count, before, first, 0, index);
      var s := run[|schedule|];
      var t := Move(s, 0, Looping).(log := s.log + [Replay(index, true)]);
      Extended(rows, valid, count, run, schedule, 0, t);
      run, schedule := run + [t], schedule + [0];
    }
  }

  /** Then the workers can return, one after the other. */
  lemma {:induction false} ReturnsPossible(rows: nat, valid: nat -> bool, count: nat, exited: nat)
    returns (run: seq<Pool>, schedule: seq<nat>)
    requires count >= 1 && exited <= count && forall index: nat | index < rows :: valid(index)
    ensures Interleaving(rows, valid, count, run, schedule)
    ensures Between(run[|schedule|], count, exited, rows + exited)
    decreases exited
  {
    if exited == 0 {
      run, schedule := ReplaysPossible(rows, valid, count, rows);
    } else {
      var w := exited - 1;
      var before, first := ReturnsPossible(rows, valid, count, w);
      run, schedule := TakeIndex(rows, valid, count, before, first, w, rows + w);
    }
  }

  /** SUCCESS IS POSSIBLE. If every row is valid, any number of workers can join with the flag down. */
  lemma SuccessPossible(rows: nat, valid: nat -> bool, count: nat) returns (run: seq<Pool>, schedule: seq<nat>)
    requires count >= 1 && forall index: nat | index < rows :: valid(index)
    ensures Interleaving(rows, valid, count, run, schedule)
    ensures AllExited(run[|schedule|]) && !run[|schedule|].failed
  {
    run, schedule := ReturnsPossible(rows, valid, count, count);
  }

  // ---- What the flag does -------------------------------------------------------------------

  /** Workers past their look at the flag. */
  predicate InFlight(worker: Worker) {
    worker.Claiming? || worker.Claimed? || worker.Running?
  }

  function FlightCount(workers: seq<Worker>): nat {
    if workers == [] then 0
    else FlightCount(workers[..|workers| - 1]) + (if InFlight(workers[|workers| - 1]) then 1 else 0)
  }

  lemma {:induction false} FlightUpdate(workers: seq<Worker>, w: nat, to: Worker)
    requires w < |workers|
    ensures FlightCount(workers[w := to]) + (if InFlight(workers[w]) then 1 else 0)
      == FlightCount(workers) + (if InFlight(to) then 1 else 0)
    decreases |workers|
  {
    var last := |workers| - 1;
    if w < last {
      FlightUpdate(workers[..last], w, to);
      assert workers[w := to][..last] == workers[..last][w := to];
    } else {
      assert workers[w := to][..last] == workers[..last];
    }
  }

  lemma {:induction false} FlightAtMost(workers: seq<Worker>)
    ensures FlightCount(workers) <= |workers|
  {
    if workers == [] {
    } else {
      FlightAtMost(workers[..|workers| - 1]);
    }
  }

  lemma StepAfterFlag(rows: nat, valid: nat -> bool, s: Pool, t: Pool, w: nat)
    requires Step(rows, valid, s, t, w) && s.failed
    ensures t.failed && |t.log| + FlightCount(t.workers) <= |s.log| + FlightCount(s.workers)
  {
    FlightUpdate(s.workers, w, t.workers[w]);
  }

  /** THE FLAG STOPS THE POOL. Once it is up it stays up, and only workers that had already looked at it
      finish another replay, one each. */
  lemma {:induction false} FlagStopsPool(
    rows: nat, valid: nat -> bool, count: nat, run: seq<Pool>, schedule: seq<nat>, i: nat, j: nat)
    requires Interleaving(rows, valid, count, run, schedule) && i <= j < |run| && run[i].failed
    ensures run[j].failed && |run[j].log| + FlightCount(run[j].workers) <= |run[i].log| + FlightCount(run[i].workers)
    ensures |run[j].log| <= |run[i].log| + count
    decreases j
  {
    if i < j {
      FlagStopsPool(rows, valid, count, run, schedule, i, j - 1);
      StepAfterFlag(rows, valid, run[j - 1], run[j], schedule[j - 1]);
    }
    FlightAtMost(run[i].workers);
    RunKeepsInvariant(rows, valid, count, run, schedule, i);
  }
}
