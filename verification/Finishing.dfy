/** From every state in which nothing has gone wrong, a transfer of either kind can still run to its end. */
module Finishing {
  import opened Bytes
  import opened Spans
  import opened Transfer
  import Download

  // -- runs put together --------------------------------------------------

  lemma OneStep(j: Job, s: State, step: Step) returns (t: State)
    requires Planned(j) && Inv(j, s) && Enabled(j, s, step)
    ensures t == After(j, s, step) && Inv(j, t) && Runs(j, s, [step], t)
  {
    StepInv(j, s, step);
    t := After(j, s, step);
    assert [step][1..] == [];
    assert Runs(j, t, [], t);
  }

  /** One more step of one worker: what it does to the others, to the flags and to the output. */
  lemma Extend(j: Job, s: State, a: seq<Step>, t: State, step: Step) returns (steps: seq<Step>, u: State)
    requires Planned(j) && Runs(j, s, a, t) && Inv(j, t) && OfWorker(step) && Enabled(j, t, step)
    ensures Inv(j, u) && Runs(j, s, steps, u)
    ensures u.workers == t.workers[step.i := Moves(j, t, t.workers[step.i], step)]
    ensures u.halt == t.halt && u.aborted == t.aborted && u.abandoned == t.abandoned
    ensures step.Turn? || (u.out == t.out && u.cursor == t.cursor)
    ensures step.Turn? ==> u.cursor == t.cursor + t.workers[step.i].phase.size
  {
    u := OneStep(j, t, step);
    RunsAppend(j, s, a, t, [step], u);
    steps := a + [step];
  }

  // -- from any healthy state to the end ------------------------------------

  /** Nothing has gone wrong yet, and the file is as long as the plan says. */
  ghost predicate Healthy(j: Job, s: State)
  {
    && j.total <= |j.source| && !s.halt && !s.aborted && !s.abandoned
    && forall i | 0 <= i < |s.workers| :: !s.workers[i].EndedShort() && !s.workers[i].phase.Failed?
  }

  /** It gets from `t` to `u` by steps of worker `i` alone, and nothing goes wrong. */
  ghost predicate Advanced(j: Job, s: State, t: State, steps: seq<Step>, u: State, i: nat)
  {
    && i < |t.workers| == |u.workers|
    && Inv(j, u) && Healthy(j, u) && Runs(j, s, steps, u)
    && u.workers == t.workers[i := u.workers[i]]
  }

  /** In a stream it is this worker's turn; in a download it always is. */
  predicate Turns(j: Job, s: State, i: nat)
    requires i < |s.workers|
  {
    j.mode.Ordered? ==> s.cursor == s.workers[i].At()
  }

  /** What is left of a piece goes into the file. */
  lemma PutsDown(j: Job, s: State, a: seq<Step>, t: State, i: nat) returns (steps: seq<Step>, u: State)
    requires Planned(j) && j.mode.Positioned? && Advanced(j, s, t, a, t, i) && t.workers[i].phase.Holding?
    ensures Advanced(j, s, t, steps, u, i)
    ensures u.workers[i] == t.workers[i].(phase := Holding(t.workers[i].phase.size, t.workers[i].phase.size))
  {
    Within(j, t, i);
    steps, u := a, t;
    var left := t.workers[i].phase.size - t.workers[i].phase.landed;
    if left > 0 { steps, u := Extend(j, s, a, t, Land(i, left)); }
  }

  lemma Within(j: Job, s: State, i: nat)
    requires Inv(j, s) && i < |s.workers|
    ensures SafeWorker(j, s.workers[i])
  {
  }

  /** A download's worker has its whole piece in the file, and goes on. */
  lemma PutDown(j: Job, s: State, a: seq<Step>, t: State, i: nat) returns (steps: seq<Step>, u: State)
    requires Planned(j) && j.mode.Positioned? && Advanced(j, s, t, a, t, i) && t.workers[i].phase.Holding?
    ensures Advanced(j, s, t, steps, u, i) && u.workers[i].phase.Counting?
    ensures u.workers[i].phase.size == t.workers[i].phase.size
    ensures u.workers[i].done == t.workers[i].done + t.workers[i].phase.size
  {
    hide Inv, Runs, Planned;
    var b, v := PutsDown(j, s, a, t, i);
    steps, u := Extend(j, s, b, v, Landed(i));
  }

  /** The worker hands over the piece it holds: to the file, or in its turn to the writer. */
  lemma HandsOver(j: Job, s: State, a: seq<Step>, t: State, i: nat) returns (steps: seq<Step>, u: State)
    requires Planned(j) && Advanced(j, s, t, a, t, i) && Turns(j, t, i) && t.workers[i].phase.Holding?
    ensures Advanced(j, s, t, steps, u, i) && Turns(j, u, i)
    ensures u.workers[i].phase.Reading? && u.workers[i].done == t.workers[i].done + t.workers[i].phase.size
  {
    hide Inv, Runs;
    if j.mode.Ordered? { steps, u := Extend(j, s, a, t, Turn(i)); } else { steps, u := PutDown(j, s, a, t, i); }
    steps, u := Extend(j, s, steps, u, Count(i));
  }

  /** The worker fetches all it still owes in one piece. */
  lemma Takes(j: Job, s: State, a: seq<Step>, t: State, i: nat) returns (steps: seq<Step>, u: State)
    requires Planned(j) && Advanced(j, s, t, a, t, i)
    requires !t.workers[i].Complete() && t.workers[i].phase.Reading?
    ensures Advanced(j, s, t, steps, u, i) && u.cursor == t.cursor
    ensures u.workers[i] == t.workers[i].(phase := Holding(t.workers[i].span.length - t.workers[i].done, 0))
  {
    TilesWithin(j.spans, j.total, i);
    steps, u := Extend(j, s, a, t, Take(i, t.workers[i].span.length - t.workers[i].done));
  }

  lemma AdvancedOn(j: Job, s: State, t: State, a: seq<Step>, u: State, b: seq<Step>, v: State, i: nat)
    requires Advanced(j, s, t, a, u, i) && Advanced(j, s, u, b, v, i)
    ensures Advanced(j, s, t, b, v, i)
  {
  }

  /** The worker whose turn it is fetches and hands over all it still owes. */
  lemma Completes(j: Job, s: State, a: seq<Step>, t: State, i: nat) returns (steps: seq<Step>, u: State)
    requires Planned(j) && Advanced(j, s, t, a, t, i)
    requires Turns(j, t, i) && !t.workers[i].Complete() && t.workers[i].phase.Reading?
    ensures Advanced(j, s, t, steps, u, i)
    ensures u.workers[i].phase.Reading? && u.workers[i].Complete()
  {
    var b, v := Takes(j, s, a, t, i);
    steps, u := HandsOver(j, s, b, v, i);
    AdvancedOn(j, s, t, b, v, steps, u, i);
  }

  lemma TurnComes(j: Job, t: State, i: nat)
    requires Planned(j) && Inv(j, t) && Healthy(j, t) && i < |t.workers|
    requires forall k | 0 <= k < i :: t.workers[k].phase.Ended?
    requires !t.workers[i].Complete()
    ensures Turns(j, t, i)
  {
    if j.mode.Ordered? {
      var f: nat :| Frontier(j, t, f);
      assert forall k | 0 <= k < i :: t.workers[k].Complete();
      assert f == i;
    }
  }

  /** A worker puts down what it is in the middle of. */
  lemma Settles(j: Job, s: State, i: nat) returns (steps: seq<Step>, t: State)
    requires Planned(j) && Inv(j, s) && Healthy(j, s) && i < |s.workers|
    requires forall k | 0 <= k < i :: s.workers[k].phase.Ended?
    requires !s.workers[i].phase.Ended?
    ensures Advanced(j, s, s, steps, t, i) && t.workers[i].phase.Reading?
  {
    steps, t := [], s;
    if t.workers[i].phase.Counting? {
      steps, t := Extend(j, s, steps, t, Count(i));
    } else if t.workers[i].phase.Holding? {
      TurnComes(j, t, i);
      steps, t := HandsOver(j, s, steps, t, i);
    }
  }

  lemma Closes(j: Job, s: State, a: seq<Step>, t: State, i: nat) returns (steps: seq<Step>, u: State)
    requires Planned(j) && Advanced(j, s, t, a, t, i) && t.workers[i].phase.Reading? && t.workers[i].Complete()
    ensures Advanced(j, s, t, steps, u, i) && u.workers[i].phase.Ended?
  {
    hide Inv, Runs, Planned;
    steps, u := Extend(j, s, a, t, End(i));
  }

  lemma Finishes(j: Job, s: State, a: seq<Step>, t: State, i: nat) returns (steps: seq<Step>, u: State)
    requires Planned(j) && Advanced(j, s, t, a, t, i) && t.workers[i].phase.Reading?
    requires t.workers[i].Complete() || Turns(j, t, i)
    ensures Advanced(j, s, t, steps, u, i) && u.workers[i].phase.Ended?
  {
    if t.workers[i].Complete() {
      steps, u := Closes(j, s, a, t, i);
    } else {
      var b, v := Completes(j, s, a, t, i);
      steps, u := Closes(j, s, b, v, i);
    }
  }

  lemma WorkerFinishes(j: Job, s: State, i: nat) returns (steps: seq<Step>, t: State)
    requires Planned(j) && Inv(j, s) && Healthy(j, s) && i < |s.workers|
    requires forall k | 0 <= k < i :: s.workers[k].phase.Ended?
    ensures Advanced(j, s, s, steps, t, i) && t.workers[i].phase.Ended?
  {
    hide Inv, Planned;
    if s.workers[i].phase.Ended? {
      steps, t := [], s;
    } else {
      var a, u := Settles(j, s, i);
      if !u.workers[i].Complete() { TurnComes(j, u, i); }
      steps, t := Finishes(j, s, a, u, i);
    }
  }

  lemma {:induction false} AllFinish(j: Job, s: State, from: nat) returns (steps: seq<Step>, t: State)
    requires Planned(j) && Inv(j, s) && Healthy(j, s) && from <= |s.workers|
    requires forall k | 0 <= k < from :: s.workers[k].phase.Ended?
    ensures Inv(j, t) && Runs(j, s, steps, t) && Healthy(j, t) && Download.AllEnded(t)
    decreases |s.workers| - from
  {
    if from == |s.workers| {
      steps, t := [], s;
    } else {
      var a, u := WorkerFinishes(j, s, from);
      var b;
      b, t := AllFinish(j, u, from + 1);
      RunsAppend(j, s, a, u, b, t);
      steps := a + b;
    }
  }

  /** No healthy state is a dead end, whatever was lost on the way to it. */
  lemma CanFinish(j: Job, steps: seq<Step>, s: State) returns (more: seq<Step>, t: State)
    requires Planned(j) && Reaches(j, steps, s) && Healthy(j, s)
    ensures Reaches(j, steps + more, t) && Download.AllEnded(t) && t.moved == j.total
  {
    ReachableInv(j, steps, s);
    more, t := AllFinish(j, s, 0);
    RunsAppend(j, Init(j), steps, s, more, t);
    assert Download.AllComplete(t);
    Download.CountIsExact(j, steps + more, t);
  }

  /**
    From every state a download reaches with nothing failed, cancelled or short, losses
    and resumptions included, there is a run in which it returns, the destination then
    holding the source.
   */
  lemma DownloadCanFinish(j: Job, steps: seq<Step>, s: State) returns (more: seq<Step>, t: State)
    requires Planned(j) && j.mode.Positioned? && Reaches(j, steps, s) && Healthy(j, s)
    ensures Reaches(j, steps + more, t) && Download.AllEnded(t) && t.moved == j.total
    ensures t.dest == j.source[..j.total] + j.prior[Min(j.total, |j.prior|)..]
  {
    more, t := CanFinish(j, steps, s);
    Download.DownloadIsFaithful(j, steps + more, t);
  }

  /** Losing the server between pieces is always possible, is counted, and leaves a healthy transfer healthy. */
  lemma LossIsSurvived(j: Job, steps: seq<Step>, s: State, i: nat) returns (t: State)
    requires Planned(j) && Reaches(j, steps, s) && Healthy(j, s) && i < |s.workers| && s.workers[i].phase.Reading?
    ensures Reaches(j, steps + [Lose(i)], t) && Healthy(j, t) && t.restarts == s.restarts + 1
    ensures |t.workers| == |s.workers|
    ensures var was, now := s.workers[i], t.workers[i];
            && t.workers == s.workers[i := now] && t.moved == s.moved
            && now.phase.Reading? && now.done == now.attempt == was.done
            && now.chunk == if was.done > was.attempt then was.chunk else Max(j.floor, was.chunk / 2)
  {
    ReachableInv(j, steps, s);
    Within(j, s, i);
    t := OneStep(j, s, Lose(i));
    RunsAppend(j, Init(j), steps, s, [Lose(i)], t);
  }

  /** A number halved so many times. */
  function Halved(n: nat, times: nat): (h: nat)
    ensures h <= n
    decreases times
  {
    if times == 0 then n else Halved(n / 2, times - 1)
  }

  /** After losses in a row a worker asks for half as much each time, down to the floor. */
  lemma {:induction false} FruitlessLosses(j: Job, steps: seq<Step>, s: State, i: nat, n: nat) returns (t: State)
    requires Planned(j) && Reaches(j, steps, s) && Healthy(j, s) && i < |s.workers| && s.workers[i].phase.Reading?
    requires s.workers[i].done == s.workers[i].attempt
    ensures Reaches(j, steps + seq(n, _ => Lose(i)), t) && Healthy(j, t) && t.restarts == s.restarts + n
    ensures |t.workers| == |s.workers| && t.workers[i].done == s.workers[i].done
    ensures t.workers[i].chunk == Max(j.floor, Halved(s.workers[i].chunk, n))
    decreases n
  {
    if n == 0 {
      t := s;
      ReachableInv(j, steps, s);
      Within(j, s, i);
      assert steps + seq(0, _ => Lose(i)) == steps;
    } else {
      var u := LossIsSurvived(j, steps, s, i);
      t := FruitlessLosses(j, steps + [Lose(i)], u, i, n - 1);
      assert steps + [Lose(i)] + seq(n - 1, _ => Lose(i)) == steps + seq(n, _ => Lose(i));
    }
  }

  ghost function Losses(steps: seq<Step>): nat
  {
    if steps == [] then 0 else (if steps[0].Lose? then 1 else 0) + Losses(steps[1..])
  }

  /** The restarts reported are the losses of the run. */
  lemma {:induction false} RestartsCounted(j: Job, s: State, steps: seq<Step>, t: State)
    requires Runs(j, s, steps, t)
    ensures t.restarts == s.restarts + Losses(steps)
    decreases |steps|
  {
    if steps != [] { RestartsCounted(j, After(j, s, steps[0]), steps[1..], t); }
  }
}
