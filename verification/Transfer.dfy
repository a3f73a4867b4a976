/**
  The parallel, restartable transfer: one worker a span, each with its own
  connection, all sharing a count of bytes moved. Workers run on threads, so the
  transfer is a state machine whose steps are the points where a thread touches
  shared state or hears from the network; a run is any sequence of enabled steps.

  A download lands pieces at absolute offsets, one `pwrite` a step. An ordered
  stream makes each worker wait for its turn at a cursor before it hands its
  piece to the writer.
 */
module Transfer {
  import opened Bytes
  import opened Spans

  datatype Mode = Positioned | Ordered

  /**
    What stays fixed while a transfer runs. `source` is the remote content, `total`
    the size the transfer was planned for, `prior` what the destination held before.
   */
  datatype Job = Job(source: seq<byte>, total: nat, spans: seq<Span>, mode: Mode,
                     chunk: nat, floor: nat, prior: seq<byte>)

  datatype Phase =
    | Reading                         // waiting for the server's next piece
    | Holding(size: nat, landed: nat) // a piece is here, `landed` bytes of it already in the file
    | Counting(size: nat)             // consumed; about to add it to the shared total
    | Ended                           // the span returned
    | Failed                          // the span raised

  /** `done` is the worker's high-water mark, `attempt` where its current connection took over. */
  datatype Worker = Worker(span: Span, done: nat, attempt: nat, chunk: nat, phase: Phase)
  {
    function At(): nat { span.start + done }
    predicate Stopped() { phase.Ended? || phase.Failed? }
    predicate Complete() { done == span.length }
    predicate EndedShort() { phase.Ended? && done < span.length }
    function Counted(): int { if phase.Counting? then done - phase.size else done }
    function Reach(): nat { At() + if phase.Holding? then phase.landed else 0 }
  }

  datatype State = State(
    workers: seq<Worker>, moved: int, restarts: nat,
    halt: bool, aborted: bool, abandoned: bool,
    cursor: nat, out: seq<byte>, dest: seq<byte>)

  datatype Step =
    | Take(i: nat, size: nat)     // the reader yields a piece and nobody has called a halt
    | Notice(i: nat)              // the check between pieces sees a halt or a cancel
    | Land(i: nat, count: nat)    // one pwrite of part of the piece
    | Landed(i: nat)              // the whole piece is in the file
    | Turn(i: nat)                // the cursor has come round: writer, then cursor
    | Released(i: nat)            // a waiter finds the stream abandoned
    | Spoilt(i: nat)              // consuming the piece raises
    | Count(i: nat)               // the piece joins the shared total
    | Lose(i: nat)                // a transient failure, and the worker resumes
    | GiveUp(i: nat)              // a transient failure with no recovery left
    | End(i: nat)                 // the reader ran out: span complete, or file short
    | Halt                        // the fan-out tells the others that one has failed
    | Abandon                     // and releases the ordered waiters
    | Cancel                      // the caller's cancel hook

  // -- planning -----------------------------------------------------------

  function NonEmpty(spans: seq<Span>): (kept: seq<Span>)
  {
    if spans == [] then []
    else (if spans[0].length > 0 then [spans[0]] else []) + NonEmpty(spans[1..])
  }

  function Jobs(total: nat, count: nat): (spans: seq<Span>)
  {
    NonEmpty(Split(total, count))
  }

  lemma {:induction false} AllKept(spans: seq<Span>)
    requires forall i | 0 <= i < |spans| :: spans[i].length > 0
    ensures NonEmpty(spans) == spans
  {
    if spans != [] { AllKept(spans[1..]); }
  }

  lemma JobsTile(total: nat, count: nat)
    requires count > 0
    ensures Tiles(Jobs(total, count), total)
    ensures |Jobs(total, count)| <= count
  {
    SplitTiles(total, count);
    if total > 0 { AllKept(Split(total, count)); }
    else { assert NonEmpty([Span(0, 0)]) == NonEmpty([Span(0, 0)][1..]) == []; }
  }

  // -- the machine --------------------------------------------------------

  ghost predicate Planned(j: Job)
  {
    Tiles(j.spans, j.total) && 0 < j.floor <= j.chunk
  }

  /** Any plan the client makes is one the machine accepts. */
  lemma PlanAccepted(j: Job, count: nat)
    requires count > 0 && j.spans == Jobs(j.total, count) && 0 < j.floor <= j.chunk
    ensures Planned(j)
  {
    JobsTile(j.total, count);
  }

  ghost function Init(j: Job): State
  {
    State(seq(|j.spans|, i requires 0 <= i < |j.spans| => Worker(j.spans[i], 0, 0, j.chunk, Reading)),
          0, 0, false, false, false, 0, [], j.prior)
  }

  ghost predicate SomeFailed(s: State)
  {
    exists i | 0 <= i < |s.workers| :: s.workers[i].phase.Failed?
  }

  predicate OfWorker(step: Step) { !(step.Halt? || step.Abandon? || step.Cancel?) }

  /** A worker is inside the consumer with its piece: always in a download, only on its turn in a stream. */
  predicate Consuming(j: Job, s: State, w: Worker)
  {
    w.phase.Holding? && (j.mode.Ordered? ==> !s.abandoned && s.cursor == w.At())
  }

  predicate Ready(j: Job, s: State, w: Worker, step: Step)
  {
    match step
    case Take(_, size) =>
      && w.phase.Reading? && !s.halt && !s.aborted
      // The reader's promise: the next bytes in order, at least one, never more than asked.
      && 0 < size && w.done + size <= w.span.length && w.At() + size <= |j.source|
    case Notice(_) => w.phase.Reading? && (s.halt || s.aborted)
    case Land(_, count) => j.mode.Positioned? && w.phase.Holding? && 0 < count && w.phase.landed + count <= w.phase.size
    case Landed(_) => j.mode.Positioned? && w.phase.Holding? && w.phase.landed == w.phase.size
    case Turn(_) => j.mode.Ordered? && Consuming(j, s, w)
    case Released(_) => j.mode.Ordered? && w.phase.Holding? && s.abandoned
    case Spoilt(_) => Consuming(j, s, w)
    case Count(_) => w.phase.Counting?
    // A writer may itself raise a transient error; the worker then resumes with the piece unwritten.
    case Lose(_) => !s.aborted && (w.phase.Reading? || (j.mode.Ordered? && Consuming(j, s, w)))
    case GiveUp(_) => w.phase.Reading? || (j.mode.Ordered? && Consuming(j, s, w))
    case End(_) => w.phase.Reading?
    case _ => false
  }

  ghost predicate Enabled(j: Job, s: State, step: Step)
  {
    if OfWorker(step) then step.i < |s.workers| && Ready(j, s, s.workers[step.i], step)
    else step.Cancel? || ((step.Abandon? ==> j.mode.Ordered?) && SomeFailed(s))
  }

  /** The worker after a step of its own. */
  function Moves(j: Job, s: State, w: Worker, step: Step): Worker
    requires Ready(j, s, w, step)
  {
    match step
    case Take(_, size) => w.(phase := Holding(size, 0))
    case Land(_, count) => w.(phase := Holding(w.phase.size, w.phase.landed + count))
    case Landed(_) => w.(done := w.done + w.phase.size, phase := Counting(w.phase.size))
    case Turn(_) => w.(done := w.done + w.phase.size, phase := Counting(w.phase.size))
    case Count(_) => w.(phase := Reading)
    // Without progress since it took over, a worker asks for half as much next time, down to the floor.
    case Lose(_) => w.(phase := Reading, attempt := w.done,
                       chunk := if w.done > w.attempt then w.chunk else Max(j.floor, w.chunk / 2))
    case End(_) => w.(phase := Ended)
    case _ => w.(phase := Failed)
  }

  /** Bytes `lo` to `hi` of the piece a worker holds: the file's own, from its high-water mark. */
  function Piece(j: Job, w: Worker, lo: nat, hi: nat): seq<byte>
    requires lo <= hi
  {
    Window(j.source, w.At() + lo, hi - lo)
  }

  ghost function After(j: Job, s: State, step: Step): State
    requires Enabled(j, s, step)
  {
    if OfWorker(step) then
      var w := s.workers[step.i];
      var t := s.(workers := s.workers[step.i := Moves(j, s, w, step)]);
      match step
      case Land(_, count) =>
        t.(dest := Overlay(s.dest, w.Reach(), Piece(j, w, w.phase.landed, w.phase.landed + count)))
      case Turn(_) => t.(out := s.out + Piece(j, w, 0, w.phase.size), cursor := w.At() + w.phase.size)
      case Count(_) => t.(moved := s.moved + w.phase.size)
      case Lose(_) => t.(restarts := s.restarts + 1)
      case _ => t
    else
      match step
      case Halt => s.(halt := true)
      case Abandon => s.(abandoned := true)
      case _ => s.(aborted := true, halt := true)
  }

  // -- what every step keeps ----------------------------------------------

  ghost predicate SafeWorker(j: Job, w: Worker)
  {
    && w.attempt <= w.done <= w.span.length
    && w.At() <= Max(w.span.start, |j.source|)
    && j.floor <= w.chunk <= j.chunk
    && (w.phase.Holding? ==> w.phase.landed <= w.phase.size && 0 < w.phase.size
                             && w.done + w.phase.size <= w.span.length
                             && w.At() + w.phase.size <= |j.source|
                             && (j.mode.Ordered? ==> w.phase.landed == 0))
    && (w.phase.Counting? ==> w.phase.size <= w.done)
  }

  /** Every worker is inside its own span of the plan. */
  ghost predicate Safe(j: Job, s: State)
  {
    && |s.workers| == |j.spans|
    && (forall i | 0 <= i < |s.workers| :: s.workers[i].span == j.spans[i] && SafeWorker(j, s.workers[i]))
  }

  function Moved(ws: seq<Worker>): int
  {
    if ws == [] then 0 else ws[0].Counted() + Moved(ws[1..])
  }

  /** Everything this worker claims to have delivered is in the file. */
  ghost predicate Arrived(j: Job, w: Worker, dest: seq<byte>)
  {
    w.span.start < w.Reach() ==>
      && w.Reach() <= |dest| && w.Reach() <= |j.source|
      && forall p | w.span.start <= p < w.Reach() :: dest[p] == j.source[p]
  }

  /** Nothing past the planned size is any different from what was there before. */
  ghost predicate Beyond(j: Job, dest: seq<byte>)
  {
    |dest| >= |j.prior| && forall p | j.total <= p < |dest| :: p < |j.prior| && dest[p] == j.prior[p]
  }

  ghost predicate Faithful(j: Job, s: State)
  {
    Beyond(j, s.dest) && forall i | 0 <= i < |s.workers| :: Arrived(j, s.workers[i], s.dest)
  }

  /** Span `f` is where the stream has got to: complete before it, untouched after it. */
  ghost predicate Frontier(j: Job, s: State, f: nat)
  {
    && f <= |s.workers|
    && (forall i | 0 <= i < f :: s.workers[i].Complete())
    && (forall i | f < i < |s.workers| :: s.workers[i].done == 0)
    && (f < |s.workers| ==> !s.workers[f].Complete())
    && s.cursor == (if f < |s.workers| then s.workers[f].At() else j.total)
  }

  ghost predicate Prefix(j: Job, s: State)
  {
    s.cursor <= |j.source| && s.out == j.source[..s.cursor] && exists f :: Frontier(j, s, f)
  }

  ghost predicate Inv(j: Job, s: State)
  {
    && Safe(j, s)
    && s.moved == Moved(s.workers)
    && (j.mode.Positioned? ==> Faithful(j, s) && s.out == [] && s.cursor == 0)
    && (j.mode.Ordered? ==> Prefix(j, s) && s.dest == j.prior)
  }

  lemma {:induction false} MovedUpdate(ws: seq<Worker>, i: nat, w: Worker)
    requires i < |ws|
    ensures Moved(ws[i := w]) == Moved(ws) - ws[i].Counted() + w.Counted()
  {
    if i == 0 {
      assert ws[i := w][1..] == ws[1..];
    } else {
      assert ws[i := w][1..] == ws[1..][i - 1 := w];
      MovedUpdate(ws[1..], i - 1, w);
    }
  }

  lemma {:induction false} MovedZero(ws: seq<Worker>)
    requires forall i | 0 <= i < |ws| :: ws[i].Counted() == 0
    ensures Moved(ws) == 0
  {
    if ws != [] { MovedZero(ws[1..]); }
  }

  lemma InitInv(j: Job)
    requires Planned(j)
    ensures Inv(j, Init(j))
  {
    MovedZero(Init(j).workers);
    if j.mode.Ordered? { assert Frontier(j, Init(j), 0); }
  }

  lemma MovesSafe(j: Job, s: State, w: Worker, step: Step)
    requires Planned(j) && SafeWorker(j, w) && Ready(j, s, w, step)
    ensures SafeWorker(j, Moves(j, s, w, step))
  {
  }

  lemma StepSafe(j: Job, s: State, step: Step)
    requires Planned(j) && Safe(j, s) && Enabled(j, s, step)
    ensures Safe(j, After(j, s, step))
  {
    if OfWorker(step) { MovesSafe(j, s, s.workers[step.i], step); }
  }

  lemma StepMoved(j: Job, s: State, step: Step)
    requires Planned(j) && Inv(j, s) && Enabled(j, s, step)
    ensures After(j, s, step).moved == Moved(After(j, s, step).workers)
  {
    if OfWorker(step) { MovedUpdate(s.workers, step.i, After(j, s, step).workers[step.i]); }
  }

  lemma Extends(source: seq<byte>, dest: seq<byte>, start: nat, at: nat, count: nat)
    requires start <= at && 0 < count && at + count <= |source|
    requires start < at ==> at <= |dest| && forall p | start <= p < at :: dest[p] == source[p]
    ensures var after := Overlay(dest, at, Window(source, at, count));
            at + count <= |after| && forall p | start <= p < at + count :: after[p] == source[p]
  {
    var data := Window(source, at, count);
    assert |data| == count;
    var after := Overlay(dest, at, data);
    forall p | start <= p < at + count ensures after[p] == source[p] {
      if at <= p { assert after[p] == data[p - at]; }
    }
  }

  lemma StaysBelow(j: Job, dest: seq<byte>, at: nat, data: seq<byte>)
    requires Beyond(j, dest) && at + |data| <= j.total
    ensures Beyond(j, Overlay(dest, at, data))
  {
    var after := Overlay(dest, at, data);
    forall p | j.total <= p < |after| ensures p < |j.prior| && after[p] == j.prior[p] { assert after[p] == dest[p]; }
  }

  lemma LandArrives(j: Job, w: Worker, dest: seq<byte>, count: nat)
    requires SafeWorker(j, w) && Arrived(j, w, dest) && Beyond(j, dest) && w.span.End() <= j.total
    requires w.phase.Holding? && 0 < count && w.phase.landed + count <= w.phase.size
    ensures var after := Overlay(dest, w.Reach(), Piece(j, w, w.phase.landed, w.phase.landed + count));
            Arrived(j, w.(phase := Holding(w.phase.size, w.phase.landed + count)), after) && Beyond(j, after)
  {
    hide Overlay, Window, Beyond;
    Extends(j.source, dest, w.span.start, w.Reach(), count);
    StaysBelow(j, dest, w.Reach(), Window(j.source, w.Reach(), count));
  }

  /** What one worker lands leaves what another has landed alone. */
  lemma LandApart(j: Job, w: Worker, dest: seq<byte>, offset: nat, data: seq<byte>)
    requires SafeWorker(j, w) && Arrived(j, w, dest)
    requires offset + |data| <= w.span.start || w.span.End() <= offset
    ensures Arrived(j, w, Overlay(dest, offset, data))
  {
  }

  lemma LandSpares(j: Job, s: State, i: nat, k: nat, count: nat)
    requires Planned(j) && Safe(j, s) && i < |s.workers| && k < |s.workers| && i != k
    requires Arrived(j, s.workers[k], s.dest)
    requires s.workers[i].phase.Holding? && s.workers[i].phase.landed + count <= s.workers[i].phase.size
    ensures var w := s.workers[i];
            Arrived(j, s.workers[k], Overlay(s.dest, w.Reach(), Piece(j, w, w.phase.landed, w.phase.landed + count)))
  {
    var w := s.workers[i];
    TilesOrdered(j.spans, j.total, if i < k then i else k, if i < k then k else i);
    LandApart(j, s.workers[k], s.dest, w.Reach(), Piece(j, w, w.phase.landed, w.phase.landed + count));
  }

  lemma LandFaithful(j: Job, s: State, i: nat, count: nat)
    requires Planned(j) && Safe(j, s) && Faithful(j, s) && Enabled(j, s, Land(i, count))
    ensures Faithful(j, After(j, s, Land(i, count)))
  {
    hide Overlay, Window, Arrived, Beyond;
    var t := After(j, s, Land(i, count));
    TilesWithin(j.spans, j.total, i);
    LandArrives(j, s.workers[i], s.dest, count);
    forall k | 0 <= k < |t.workers|
      ensures Arrived(j, t.workers[k], t.dest)
    {
      if k != i { LandSpares(j, s, i, k, count); }
    }
  }

  lemma StepFaithful(j: Job, s: State, step: Step)
    requires Planned(j) && Inv(j, s) && Enabled(j, s, step) && j.mode.Positioned?
    ensures Faithful(j, After(j, s, step))
  {
    if step.Land? {
      LandFaithful(j, s, step.i, step.count);
    } else if OfWorker(step) {
      var w := s.workers[step.i];
      assert Moves(j, s, w, step).Reach() <= w.Reach();
      assert Arrived(j, Moves(j, s, w, step), s.dest);
    }
  }

  /** The only worker whose next byte is at the cursor is the one at the frontier. */
  lemma TurnIsFrontier(j: Job, s: State, f: nat, i: nat)
    requires Planned(j) && Safe(j, s) && Frontier(j, s, f)
    requires i < |s.workers| && !s.workers[i].Complete()
    ensures s.workers[i].At() == s.cursor <==> i == f
  {
    if f < i { TilesOrdered(j.spans, j.total, f, i); }
  }

  lemma TurnPrefix(j: Job, s: State, i: nat)
    requires Planned(j) && Inv(j, s) && Enabled(j, s, Turn(i))
    ensures Prefix(j, After(j, s, Turn(i)))
  {
    var t := After(j, s, Turn(i));
    var f :| Frontier(j, s, f);
    TurnIsFrontier(j, s, f, i);
    assert t.out == j.source[..t.cursor];
    if t.workers[i].Complete() {
      assert i + 1 < |j.spans| ==> j.spans[i + 1].start == j.spans[i].End();
      assert Frontier(j, t, i + 1);
    } else {
      assert Frontier(j, t, i);
    }
  }

  lemma OnlyTurnAdvances(j: Job, s: State, w: Worker, step: Step)
    requires Ready(j, s, w, step) && j.mode.Ordered? && !step.Turn?
    ensures Moves(j, s, w, step).done == w.done && Moves(j, s, w, step).span == w.span
  {
  }

  ghost predicate SamePlaces(ws: seq<Worker>, vs: seq<Worker>)
  {
    |ws| == |vs| && forall i | 0 <= i < |ws| :: ws[i].done == vs[i].done && ws[i].span == vs[i].span
  }

  lemma FrontierStays(j: Job, s: State, t: State, f: nat)
    requires Frontier(j, s, f) && SamePlaces(s.workers, t.workers) && t.cursor == s.cursor
    ensures Frontier(j, t, f)
  {
  }

  lemma OutStays(j: Job, s: State, step: Step)
    requires Enabled(j, s, step) && !step.Turn?
    ensures After(j, s, step).out == s.out && After(j, s, step).cursor == s.cursor
  {
  }

  lemma PlacesStay(j: Job, s: State, step: Step)
    requires Enabled(j, s, step) && j.mode.Ordered? && !step.Turn?
    ensures SamePlaces(s.workers, After(j, s, step).workers)
  {
    if OfWorker(step) {
      OnlyTurnAdvances(j, s, s.workers[step.i], step);
      assert After(j, s, step).workers == s.workers[step.i := Moves(j, s, s.workers[step.i], step)];
    }
  }

  lemma PrefixStays(j: Job, s: State, t: State)
    requires Prefix(j, s) && SamePlaces(s.workers, t.workers) && t.out == s.out && t.cursor == s.cursor
    ensures Prefix(j, t)
  {
    var f: nat :| Frontier(j, s, f);
    FrontierStays(j, s, t, f);
  }

  lemma StepPrefix(j: Job, s: State, step: Step)
    requires Prefix(j, s) && Enabled(j, s, step) && j.mode.Ordered? && !step.Turn?
    ensures Prefix(j, After(j, s, step))
  {
    OutStays(j, s, step);
    PlacesStay(j, s, step);
    PrefixStays(j, s, After(j, s, step));
  }

  lemma StepInv(j: Job, s: State, step: Step)
    requires Planned(j) && Inv(j, s) && Enabled(j, s, step)
    ensures Inv(j, After(j, s, step))
  {
    StepSafe(j, s, step);
    StepMoved(j, s, step);
    if j.mode.Positioned? {
      StepFaithful(j, s, step);
    } else if step.Turn? {
      TurnPrefix(j, s, step.i);
    } else {
      StepPrefix(j, s, step);
    }
  }

  // -- runs ---------------------------------------------------------------

  /** `steps`, taken one after another from `s`, are all enabled and end in `t`. */
  ghost predicate Runs(j: Job, s: State, steps: seq<Step>, t: State)
    decreases |steps|
  {
    if steps == [] then s == t
    else Enabled(j, s, steps[0]) && Runs(j, After(j, s, steps[0]), steps[1..], t)
  }

  ghost predicate Reaches(j: Job, steps: seq<Step>, t: State) { Runs(j, Init(j), steps, t) }

  lemma {:induction false} RunsInv(j: Job, s: State, steps: seq<Step>, t: State)
    requires Planned(j) && Inv(j, s) && Runs(j, s, steps, t)
    ensures Inv(j, t)
    decreases |steps|
  {
    if steps != [] {
      StepInv(j, s, steps[0]);
      RunsInv(j, After(j, s, steps[0]), steps[1..], t);
    }
  }

  lemma ReachableInv(j: Job, steps: seq<Step>, s: State)
    requires Planned(j) && Reaches(j, steps, s)
    ensures Inv(j, s)
  {
    InitInv(j);
    RunsInv(j, Init(j), steps, s);
  }

  lemma {:induction false} RunsAppend(j: Job, s: State, a: seq<Step>, t: State, b: seq<Step>, u: State)
    requires Runs(j, s, a, t) && Runs(j, t, b, u)
    ensures Runs(j, s, a + b, u)
    decreases |a|
  {
    if a == [] {
      assert a + b == b;
    } else {
      RunsAppend(j, After(j, s, a[0]), a[1..], t, b, u);
      assert (a + b)[1..] == a[1..] + b;
    }
  }
}
