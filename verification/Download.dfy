/** What a download that returned has done, in every run of the transfer. */
module Download {
  import opened Bytes
  import opened Spans
  import opened Transfer

  /** Every job returned, so the fan-out raised nothing. */
  ghost predicate AllEnded(s: State)
  {
    forall i | 0 <= i < |s.workers| :: s.workers[i].phase.Ended?
  }

  ghost predicate AllComplete(s: State)
  {
    forall i | 0 <= i < |s.workers| :: s.workers[i].Complete()
  }

  /** The count never exceeds the bytes planned, and reaches it only when nothing is missing. */
  lemma {:induction false} CountedAgainst(ws: seq<Worker>, spans: seq<Span>, from: nat, to: nat)
    requires |ws| == |spans| && TilesFrom(spans, from, to) && from <= to
    requires forall i | 0 <= i < |ws| :: ws[i].span == spans[i] && ws[i].done <= spans[i].length && ws[i].phase.Ended?
    ensures Moved(ws) <= to - from
    ensures Moved(ws) == to - from <==> forall i | 0 <= i < |ws| :: ws[i].Complete()
  {
    if ws != [] {
      var next := spans[0].End();
      if |spans| > 1 { assert spans[1..][0] == spans[1]; TilesReach(spans, from, to, 0); }
      CountedAgainst(ws[1..], spans[1..], next, to);
      assert forall i | 0 <= i < |ws| :: i == 0 || ws[i] == ws[1..][i - 1];
    }
  }

  lemma {:induction false} TilesReach(spans: seq<Span>, from: nat, to: nat, k: nat)
    requires TilesFrom(spans, from, to) && k < |spans|
    ensures spans[k].End() <= to
    decreases |spans| - k
  {
    if k + 1 < |spans| { TilesReach(spans, from, to, k + 1); }
  }

  /** The final check of the count is exact: it passes if and only if no span came back short. */
  lemma CountIsExact(j: Job, steps: seq<Step>, s: State)
    requires Planned(j) && Reaches(j, steps, s) && AllEnded(s)
    ensures s.moved <= j.total
    ensures s.moved == j.total <==> AllComplete(s)
  {
    ReachableInv(j, steps, s);
    CountedAgainst(s.workers, j.spans, 0, j.total);
  }

  /** Content that is the source's up to the planned size, and what it was beyond. */
  lemma Spliced(j: Job, dest: seq<byte>)
    requires Beyond(j, dest) && j.total <= |dest| && j.total <= |j.source|
    requires forall p | 0 <= p < j.total :: dest[p] == j.source[p]
    ensures dest == j.source[..j.total] + j.prior[Min(j.total, |j.prior|)..]
  {
    if j.total < |dest| {
      var last := dest[|dest| - 1];
      assert |dest| - 1 < |j.prior|;
    }
    assert |dest| == Max(j.total, |j.prior|);
  }

  /**
    If a download returns - every worker returned and the count is the planned
    size - then the destination is the source's first `total` bytes, followed by
    whatever it already held beyond them.
   */
  lemma DownloadIsFaithful(j: Job, steps: seq<Step>, s: State)
    requires Planned(j) && j.mode.Positioned? && Reaches(j, steps, s)
    requires AllEnded(s) && s.moved == j.total
    ensures j.total <= |j.source|
    ensures s.dest == j.source[..j.total] + j.prior[Min(j.total, |j.prior|)..]
  {
    ReachableInv(j, steps, s);
    CountIsExact(j, steps, s);
    if j.total > 0 { assert Arrived(j, s.workers[|j.spans| - 1], s.dest); }
    forall p | 0 <= p < j.total ensures s.dest[p] == j.source[p] {
      var i := TilesCover(j.spans, j.total, p, 0);
      assert Arrived(j, s.workers[i], s.dest);
    }
    Spliced(j, s.dest);
  }

  // -- nothing is written twice -------------------------------------------

  /** The stretches of the destination that the `pwrite` calls of a run cover, in order. */
  ghost function Writes(j: Job, s: State, steps: seq<Step>, t: State): seq<Span>
    requires Runs(j, s, steps, t)
    decreases |steps|
  {
    if steps == [] then []
    else
      var rest := Writes(j, After(j, s, steps[0]), steps[1..], t);
      if steps[0].Land? then [Span(s.workers[steps[0].i].Reach(), steps[0].count)] + rest else rest
  }

  /** A stretch some worker has yet to write. */
  ghost predicate Ahead(ws: seq<Worker>, r: Span)
  {
    exists k | 0 <= k < |ws| :: !ws[k].Stopped() && ws[k].Reach() <= r.start && r.End() <= ws[k].span.End()
  }

  lemma WorkerAhead(j: Job, s: State, w: Worker, step: Step)
    requires j.mode.Positioned? && SafeWorker(j, w) && Ready(j, s, w, step)
    ensures var after := Moves(j, s, w, step);
            && after.span == w.span && !w.Stopped()
            && (after.Stopped() || w.Reach() + (if step.Land? then step.count else 0) <= after.Reach())
            && (step.Land? ==> w.Reach() + step.count <= w.span.End())
  {
  }

  lemma AheadBefore(j: Job, s: State, step: Step, r: Span)
    requires Planned(j) && Safe(j, s) && j.mode.Positioned? && OfWorker(step) && Enabled(j, s, step)
    requires Ahead(s.workers[step.i := Moves(j, s, s.workers[step.i], step)], r)
    ensures Ahead(s.workers, r)
    ensures step.Land? ==> Apart(Span(s.workers[step.i].Reach(), step.count), r)
  {
    hide Moves, Ready, SafeWorker, Planned;
    var i := step.i;
    var ws := s.workers[i := Moves(j, s, s.workers[i], step)];
    WorkerAhead(j, s, s.workers[i], step);
    var k :| 0 <= k < |ws| && !ws[k].Stopped() && ws[k].Reach() <= r.start && r.End() <= ws[k].span.End();
    if k != i && step.Land? { OthersApart(j, s, i, k, step.count, r); }
  }

  /** What two workers write lies apart. */
  lemma OthersApart(j: Job, s: State, i: nat, k: nat, count: nat, r: Span)
    requires Planned(j) && Safe(j, s) && i < |s.workers| && k < |s.workers| && i != k
    requires s.workers[i].Reach() + count <= s.workers[i].span.End()
    requires s.workers[k].Reach() <= r.start && r.End() <= s.workers[k].span.End()
    ensures Apart(Span(s.workers[i].Reach(), count), r)
  {
    TilesOrdered(j.spans, j.total, if i < k then i else k, if i < k then k else i);
  }

  ghost predicate AllAhead(ws: seq<Worker>, writes: seq<Span>)
  {
    forall a | 0 <= a < |writes| :: Ahead(ws, writes[a])
  }

  ghost predicate Disjoint(writes: seq<Span>)
  {
    forall a, b | 0 <= a < b < |writes| :: Apart(writes[a], writes[b])
  }

  predicate Apart(a: Span, b: Span) { a.End() <= b.start || b.End() <= a.start }

  lemma AllAheadBefore(j: Job, s: State, step: Step, rest: seq<Span>)
    requires Planned(j) && Safe(j, s) && j.mode.Positioned? && Enabled(j, s, step)
    requires AllAhead(After(j, s, step).workers, rest) && Disjoint(rest)
    ensures var writes := if step.Land? then [Span(s.workers[step.i].Reach(), step.count)] + rest else rest;
            AllAhead(s.workers, writes) && Disjoint(writes)
  {
    hide Moves, SafeWorker, Planned, Apart;
    if OfWorker(step) {
      forall a | 0 <= a < |rest|
        ensures Ahead(s.workers, rest[a])
        ensures step.Land? ==> Apart(Span(s.workers[step.i].Reach(), step.count), rest[a])
      {
        AheadBefore(j, s, step, rest[a]);
      }
      WorkerAhead(j, s, s.workers[step.i], step);
    }
  }

  /** No byte of the destination is ever written by two `pwrite` calls, whatever is lost and resumed. */
  lemma {:induction false} NothingWrittenTwice(j: Job, s: State, steps: seq<Step>, t: State)
    requires Planned(j) && j.mode.Positioned? && Safe(j, s) && Runs(j, s, steps, t)
    ensures Disjoint(Writes(j, s, steps, t))
    ensures AllAhead(s.workers, Writes(j, s, steps, t))
    decreases |steps|
  {
    if steps != [] {
      StepSafe(j, s, steps[0]);
      NothingWrittenTwice(j, After(j, s, steps[0]), steps[1..], t);
      AllAheadBefore(j, s, steps[0], Writes(j, After(j, s, steps[0]), steps[1..], t));
    }
  }

  /** The progress total only grows. */
  lemma {:induction false} CountOnlyGrows(j: Job, s: State, steps: seq<Step>, t: State)
    requires Planned(j) && Inv(j, s) && Runs(j, s, steps, t)
    ensures s.moved <= t.moved
    decreases |steps|
  {
    hide Inv, Planned;
    if steps != [] {
      StepInv(j, s, steps[0]);
      CountOnlyGrows(j, After(j, s, steps[0]), steps[1..], t);
    }
  }
}
