/** The ordered stream: order, progress, and what a worker that stops early does to the rest. */
module OrderedStream {
  import opened Bytes
  import opened Spans
  import opened Transfer
  import Download
  import opened Finishing

  ghost predicate Live(s: State, i: nat) { i < |s.workers| && !s.workers[i].Stopped() }

  /** Worker `i` is blocked on the condition variable: not its turn, and nobody has abandoned the stream. */
  ghost predicate Waiting(s: State, i: nat)
  {
    i < |s.workers| && s.workers[i].phase.Holding? && !s.abandoned && s.cursor != s.workers[i].At()
  }

  /** There is work left and every worker that could do it is waiting. */
  ghost predicate Stuck(s: State)
  {
    (exists i: nat :: Live(s, i)) && forall i: nat | Live(s, i) :: Waiting(s, i)
  }

  // -- order --------------------------------------------------------------

  /**
    In every run, what the writer has been given is exactly the file's first
    `cursor` bytes, never more than was planned.
   */
  lemma PrefixSafety(j: Job, steps: seq<Step>, s: State)
    requires Planned(j) && j.mode.Ordered? && Reaches(j, steps, s)
    ensures s.cursor <= j.total && s.cursor <= |j.source|
    ensures s.out == j.source[..s.cursor]
  {
    ReachableInv(j, steps, s);
    var f: nat :| Frontier(j, s, f);
    if f < |s.workers| { TilesWithin(j.spans, j.total, f); }
  }

  /** Once the stream is abandoned nothing more reaches the writer. */
  lemma {:induction false} NothingAfterAbandon(j: Job, s: State, steps: seq<Step>, t: State)
    requires Planned(j) && j.mode.Ordered? && Inv(j, s) && Runs(j, s, steps, t) && s.abandoned
    ensures t.abandoned && t.out == s.out && t.cursor == s.cursor
    decreases |steps|
  {
    if steps != [] {
      StepInv(j, s, steps[0]);
      NothingAfterAbandon(j, After(j, s, steps[0]), steps[1..], t);
    }
  }

  /** A stream that returns has handed over the whole file, in order. */
  lemma StreamIsFaithful(j: Job, steps: seq<Step>, s: State)
    requires Planned(j) && j.mode.Ordered? && Reaches(j, steps, s)
    requires Download.AllEnded(s) && s.moved == j.total
    ensures j.total <= |j.source| && s.out == j.source[..j.total]
  {
    ReachableInv(j, steps, s);
    Download.CountIsExact(j, steps, s);
    var f: nat :| Frontier(j, s, f);
    assert f == |s.workers|;
  }

  // -- who can move -------------------------------------------------------

  /** The span the stream has got to belongs to a worker that is no longer there. */
  ghost predicate Orphaned(j: Job, s: State)
  {
    exists f | 0 <= f < |s.workers| :: Frontier(j, s, f) && s.workers[f].Stopped()
  }

  ghost predicate AllHolding(s: State)
  {
    forall i: nat | Live(s, i) :: s.workers[i].phase.Holding?
  }

  /**
    In any state a run reaches before it is abandoned, the workers are all blocked if
    and only if some are left, each has a piece in hand, and the earliest unfinished
    span has lost its worker.
   */
  lemma StuckExactlyWhenOrphaned(j: Job, steps: seq<Step>, s: State)
    requires Planned(j) && j.mode.Ordered? && Reaches(j, steps, s) && !s.abandoned
    ensures Stuck(s) <==> (exists i: nat :: Live(s, i)) && AllHolding(s) && Orphaned(j, s)
  {
    ReachableInv(j, steps, s);
    assert Stuck(s) ==> AllHolding(s);
    if (exists i: nat :: Live(s, i)) && AllHolding(s) { HoldersStuck(j, s); }
  }

  lemma HoldersStuck(j: Job, s: State)
    requires Planned(j) && j.mode.Ordered? && Inv(j, s) && !s.abandoned
    requires (exists i: nat :: Live(s, i)) && AllHolding(s)
    ensures Stuck(s) <==> Orphaned(j, s)
  {
    var f: nat :| Frontier(j, s, f);
    forall i: nat | Live(s, i)
      ensures Waiting(s, i) <==> i != f
    {
      TurnIsFrontier(j, s, f, i);
    }
    var i: nat :| Live(s, i);
    assert !s.workers[i].Complete();
    assert Live(s, f) <==> !s.workers[f].Stopped();
    forall g: nat | Frontier(j, s, g) ensures g == f { FrontierUnique(j, s, f, g); }
  }

  lemma FrontierUnique(j: Job, s: State, f: nat, g: nat)
    requires Frontier(j, s, f) && Frontier(j, s, g)
    ensures f == g
  {
    assert forall i | 0 <= i < f :: s.workers[i].Complete();
    assert forall i | 0 <= i < g :: s.workers[i].Complete();
  }

  /** A worker that waits holds bytes of the file and stands behind the frontier. */
  lemma WaiterBehind(j: Job, s: State, f: nat, i: nat)
    requires Planned(j) && j.mode.Ordered? && Inv(j, s) && Frontier(j, s, f) && Waiting(s, i)
    ensures f < i && s.workers[f].span.End() <= s.workers[i].span.start && s.workers[i].At() < |j.source|
  {
    hide Inv, Frontier;
    assert SafeWorker(j, s.workers[i]) && s.workers[i].span == j.spans[i] by { Placed(j, s, i); }
    BehindFrontier(j, s, f, i);
    assert s.workers[f].span == j.spans[f] by { Placed(j, s, f); }
    TilesOrdered(j.spans, j.total, f, i);
  }

  lemma Placed(j: Job, s: State, i: nat)
    requires Inv(j, s) && i < |s.workers|
    ensures |s.workers| == |j.spans| && SafeWorker(j, s.workers[i]) && s.workers[i].span == j.spans[i]
  {
  }

  lemma BehindFrontier(j: Job, s: State, f: nat, i: nat)
    requires Planned(j) && Inv(j, s) && Frontier(j, s, f) && Waiting(s, i)
    ensures f < i
  {
    assert SafeWorker(j, s.workers[i]);
    TurnIsFrontier(j, s, f, i);
  }

  lemma FrontierGone(j: Job, s: State, f: nat)
    requires Stuck(s) && Frontier(j, s, f) && f < |s.workers|
    ensures s.workers[f].Stopped() && !s.workers[f].Complete()
  {
    assert Live(s, f) ==> Waiting(s, f);
  }

  /**
    As long as nobody has failed and every span that ended short did so at the end of
    the file, some worker is free to move, however long the file is.
   */
  lemma NeverAllBlocked(j: Job, steps: seq<Step>, s: State)
    requires Planned(j) && j.mode.Ordered? && Reaches(j, steps, s) && !SomeFailed(s)
    requires ShortAtEnd(j, s)
    ensures !Stuck(s)
  {
    ReachableInv(j, steps, s);
    if Stuck(s) {
      var i: nat :| Live(s, i);
      assert Waiting(s, i);
      var f: nat :| Frontier(j, s, f);
      WaiterBehind(j, s, f, i);
      FrontierGone(j, s, f);
    }
  }

  /** Every span that ended short had come to the end of the file. */
  ghost predicate ShortAtEnd(j: Job, s: State)
  {
    forall i | 0 <= i < |s.workers| :: s.workers[i].EndedShort() ==> s.workers[i].At() >= |j.source|
  }

  /** A run in which readers stop early only at the end of the file, as they promise. */
  ghost predicate RunsTrue(j: Job, s: State, steps: seq<Step>, t: State)
    decreases |steps|
  {
    if steps == [] then s == t
    else
      && Enabled(j, s, steps[0])
      && (steps[0].End? ==> var w := s.workers[steps[0].i]; w.Complete() || w.At() >= |j.source|)
      && RunsTrue(j, After(j, s, steps[0]), steps[1..], t)
  }

  lemma StepShortAtEnd(j: Job, s: State, step: Step)
    requires Enabled(j, s, step) && ShortAtEnd(j, s)
    requires step.End? ==> var w := s.workers[step.i]; w.Complete() || w.At() >= |j.source|
    ensures ShortAtEnd(j, After(j, s, step))
  {
    if OfWorker(step) {
      assert After(j, s, step).workers == s.workers[step.i := Moves(j, s, s.workers[step.i], step)];
    }
  }

  lemma {:induction false} TrueRuns(j: Job, s: State, steps: seq<Step>, t: State)
    requires RunsTrue(j, s, steps, t) && ShortAtEnd(j, s)
    ensures Runs(j, s, steps, t) && ShortAtEnd(j, t)
    decreases |steps|
  {
    hide ShortAtEnd;
    if steps != [] {
      StepShortAtEnd(j, s, steps[0]);
      TrueRuns(j, After(j, s, steps[0]), steps[1..], t);
    }
  }

  /**
    With readers that keep their promise - stopping early only at the end of the file -
    no run in which nobody failed is ever stuck, whatever the file's length is to the plan.
   */
  lemma TrueReadersNeverStick(j: Job, steps: seq<Step>, s: State)
    requires Planned(j) && j.mode.Ordered? && RunsTrue(j, Init(j), steps, s) && !SomeFailed(s)
    ensures !Stuck(s)
  {
    TrueRuns(j, Init(j), steps, s);
    NeverAllBlocked(j, steps, s);
  }

  /** No worker of a stuck stream has a step to take. */
  lemma StuckStill(j: Job, s: State, step: Step)
    requires j.mode.Ordered? && Stuck(s) && OfWorker(step)
    ensures !Enabled(j, s, step)
  {
    if step.i < |s.workers| { assert Live(s, step.i) ==> Waiting(s, step.i); }
  }

  /**
    A stream that is stuck with nobody having raised stays so for ever: no step
    writes, moves a worker or releases a waiter, a cancel included.
   */
  lemma {:induction false} StrandedForever(j: Job, s: State, steps: seq<Step>, t: State)
    requires j.mode.Ordered? && Runs(j, s, steps, t) && Stuck(s) && !SomeFailed(s)
    ensures Stuck(t) && t.workers == s.workers && t.out == s.out
    decreases |steps|
  {
    if steps != [] {
      assert steps[0].Cancel? by { if OfWorker(steps[0]) { StuckStill(j, s, steps[0]); } }
      var u := After(j, s, steps[0]);
      assert forall i: nat :: Live(u, i) <==> Live(s, i);
      assert forall i: nat :: Waiting(u, i) <==> Waiting(s, i);
      StrandedForever(j, u, steps[1..], t);
    }
  }

  /** Whether some run strands the workers without anybody having failed. */
  ghost predicate CanStrand(j: Job)
  {
    exists steps, s :: Reaches(j, steps, s) && Stuck(s) && !SomeFailed(s)
  }

  /** The second span starts inside the file. */
  ghost predicate SecondInside(j: Job) { |j.spans| >= 2 && j.spans[1].start < |j.source| }

  lemma StrandsOnlyThen(j: Job, steps: seq<Step>, s: State)
    requires Planned(j) && j.mode.Ordered? && Reaches(j, steps, s) && Stuck(s)
    ensures SecondInside(j)
  {
    ReachableInv(j, steps, s);
    var i: nat :| Live(s, i);
    assert Waiting(s, i);
    var f: nat :| Frontier(j, s, f);
    WaiterBehind(j, s, f, i);
    Placed(j, s, i);
    if i > 1 { TilesOrdered(j.spans, j.total, 1, i); }
  }

  /** The workers from `n` on end at once. */
  ghost function Ends(n: nat, count: nat): seq<Step>
    decreases count - n
  {
    if n >= count then [] else [End(n)] + Ends(n + 1, count)
  }

  /** The first reader stops before anything came, the second holds a piece, and those from `n` on have yet to read. */
  ghost predicate Stranding(j: Job, s: State, n: nat)
  {
    && |s.workers| == |j.spans| && 2 <= n <= |s.workers| && s.cursor == 0 && !s.abandoned
    && s.workers[0].phase.Ended? && s.workers[1].phase.Holding? && s.workers[1].At() > 0
    && (forall i | 2 <= i < n :: s.workers[i].phase.Ended?)
    && (forall i | n <= i < |s.workers| :: s.workers[i].phase.Reading?)
  }

  lemma {:induction false} RestEnd(j: Job, s: State, n: nat) returns (t: State)
    requires Stranding(j, s, n)
    ensures Runs(j, s, Ends(n, |j.spans|), t) && Stranding(j, t, |j.spans|)
    decreases |j.spans| - n
  {
    if n == |j.spans| {
      t := s;
    } else {
      var u := After(j, s, End(n));
      assert Stranding(j, u, n + 1);
      t := RestEnd(j, u, n + 1);
      assert Ends(n, |j.spans|)[1..] == Ends(n + 1, |j.spans|);
    }
  }

  lemma StrandingIsStuck(j: Job, s: State)
    requires Stranding(j, s, |j.spans|)
    ensures Stuck(s) && !SomeFailed(s)
  {
    assert Live(s, 1) && Waiting(s, 1);
  }

  /** The first two steps of a run that strands the others. */
  lemma FirstTwo(j: Job) returns (s: State)
    requires Planned(j) && j.mode.Ordered? && SecondInside(j)
    ensures Runs(j, Init(j), [End(0), Take(1, 1)], s) && Stranding(j, s, 2)
  {
    assert j.spans[1].length > 0 && j.spans[1].start == j.spans[0].End() && j.spans[0].length > 0;
    var s1 := After(j, Init(j), End(0));
    assert s1.workers[1] == Init(j).workers[1];
    s := After(j, s1, Take(1, 1));
    assert [End(0), Take(1, 1)][1..] == [Take(1, 1)] && [Take(1, 1)][1..] == [];
    assert Runs(j, s, [], s);
    assert Runs(j, s1, [Take(1, 1)], s);
  }

  /**
    When readers may stop anywhere, a run that strands the workers with nobody having
    failed exists if and only if there is a second span and it starts inside the file.
   */
  lemma StrandsExactlyWhen(j: Job)
    requires Planned(j) && j.mode.Ordered?
    ensures CanStrand(j) <==> SecondInside(j)
  {
    if CanStrand(j) {
      var steps, s :| Reaches(j, steps, s) && Stuck(s) && !SomeFailed(s);
      StrandsOnlyThen(j, steps, s);
    }
    if SecondInside(j) {
      var s := FirstTwo(j);
      var t := RestEnd(j, s, 2);
      RunsAppend(j, Init(j), [End(0), Take(1, 1)], s, Ends(2, |j.spans|), t);
      StrandingIsStuck(j, t);
      assert Reaches(j, [End(0), Take(1, 1)] + Ends(2, |j.spans|), t);
    }
  }

  /** So a plan of one span is never stuck, whatever fails or stops. */
  lemma OneSpanNeverSticks(j: Job, steps: seq<Step>, s: State)
    requires Planned(j) && j.mode.Ordered? && Reaches(j, steps, s) && |j.spans| <= 1
    ensures !Stuck(s)
  {
    if Stuck(s) { StrandsOnlyThen(j, steps, s); }
  }

  // -- leaving after a failure --------------------------------------------

  /** A worker of a halted, abandoned stream can stop by itself, whatever it was doing. */
  lemma WorkerLeaves(j: Job, s: State, i: nat) returns (steps: seq<Step>, t: State)
    requires Planned(j) && j.mode.Ordered? && Inv(j, s) && i < |s.workers| && s.halt && s.abandoned
    ensures Inv(j, t) && Runs(j, s, steps, t) && t.halt && t.abandoned && t.out == s.out
    ensures t.workers == s.workers[i := t.workers[i]] && t.workers[i].Stopped()
  {
    hide Inv, Planned;
    steps, t := [], s;
    if t.workers[i].phase.Counting? { steps, t := Extend(j, s, steps, t, Count(i)); }
    if t.workers[i].phase.Reading? { steps, t := Extend(j, s, steps, t, Notice(i)); }
    else if t.workers[i].phase.Holding? { steps, t := Extend(j, s, steps, t, Released(i)); }
  }

  lemma {:induction false} AllLeave(j: Job, s: State, from: nat) returns (steps: seq<Step>, t: State)
    requires Planned(j) && j.mode.Ordered? && Inv(j, s) && s.halt && s.abandoned && from <= |s.workers|
    requires forall i | 0 <= i < from :: s.workers[i].Stopped()
    ensures Inv(j, t) && Runs(j, s, steps, t) && t.out == s.out
    ensures forall i | 0 <= i < |t.workers| :: t.workers[i].Stopped()
    decreases |s.workers| - from
  {
    if from == |s.workers| {
      steps, t := [], s;
    } else {
      var a, u := WorkerLeaves(j, s, from);
      var b;
      b, t := AllLeave(j, u, from + 1);
      RunsAppend(j, s, a, u, b, t);
      steps := a + b;
    }
  }

  /** After any failure every worker can leave, waiters included, and without another byte written. */
  lemma EveryoneCanLeave(j: Job, s: State) returns (steps: seq<Step>, t: State)
    requires Planned(j) && j.mode.Ordered? && Inv(j, s) && SomeFailed(s)
    ensures Inv(j, t) && Runs(j, s, steps, t) && t.out == s.out
    ensures forall i | 0 <= i < |t.workers| :: t.workers[i].Stopped()
  {
    hide Inv, Planned;
    var u := OneStep(j, s, Halt);
    assert SomeFailed(u);
    var v := OneStep(j, u, Abandon);
    RunsAppend(j, s, [Halt], u, [Abandon], v);
    var b;
    b, t := AllLeave(j, v, 0);
    RunsAppend(j, s, [Halt] + [Abandon], v, b, t);
    steps := [Halt] + [Abandon] + b;
  }

  // -- finishing ----------------------------------------------------------

  /** No healthy state is a dead end: from each of them the stream can still deliver the whole file. */
  lemma HealthyCanFinish(j: Job, steps: seq<Step>, s: State) returns (more: seq<Step>, t: State)
    requires Planned(j) && j.mode.Ordered? && Reaches(j, steps, s) && Healthy(j, s)
    ensures Reaches(j, steps + more, t) && Download.AllEnded(t)
    ensures t.moved == j.total && t.out == j.source[..j.total]
  {
    more, t := CanFinish(j, steps, s);
    StreamIsFaithful(j, steps + more, t);
  }
}
