/**
  Reading a handle opened only for reading: the sequential readahead block, shared
  by every thread on the handle, the plane behind it, and the event path behind that.
 */
module Readahead {
  import opened Wrappers
  import opened Bytes

  const MAX_AHEAD: nat := 8388608

  /**
    The state a read updates as a side effect: the block held, where the next read would
    follow on, how far to look.
   */
  datatype Cache = Cache(start: nat, block: seq<byte>, sequel: int, window: nat)

  /** What the locked section decides. */
  datatype Look =
    | Hit(data: seq<byte>)               // served from the block
    | Fetch(ask: nat, keep: bool)        // ask the server for this much, and keep it or not

  /** The locked section of a sequential read of `size` bytes at `offset`. */
  function Probe(c: Cache, readahead: nat, size: nat, offset: nat): (r: (Look, Cache))
  {
    var end := offset + size;
    if c.start <= offset && end <= c.start + |c.block| then
      (Hit(c.block[offset - c.start..end - c.start]), c.(sequel := end))
    else if offset != c.sequel then
      (Fetch(size, false), c.(sequel := end, window := readahead))
    else
      (Fetch(size + c.window, true), c.(sequel := end, window := Min(c.window * 2, MAX_AHEAD)))
  }

  function Reset(c: Cache): Cache { c.(start := 0, block := [], sequel := -1) }

  /** The block is a true copy of a stretch of the file, and the window is bounded. */
  ghost predicate Sound(c: Cache, file: seq<byte>, readahead: nat)
  {
    && c.block == Window(file, c.start, |c.block|)
    && c.window <= Max(readahead, MAX_AHEAD)
  }

  lemma ProbeSound(c: Cache, file: seq<byte>, readahead: nat, size: nat, offset: nat)
    requires Sound(c, file, readahead) && size > 0
    ensures var (look, after) := Probe(c, readahead, size, offset);
            && Sound(after, file, readahead)
            && (look.Hit? ==> look.data == Window(file, offset, size))
            && (look.Fetch? ==> size <= look.ask <= size + Max(readahead, MAX_AHEAD))
            && (look.Fetch? && offset != c.sequel ==>
                  look.ask == size && !look.keep && after.window == readahead && after.block == c.block)
  {
  }

  lemma WindowPrefix(file: seq<byte>, offset: nat, ask: nat, size: nat)
    requires size <= ask
    ensures var data := Window(file, offset, ask);
            data[..Min(size, |data|)] == Window(file, offset, size)
  {
  }

  lemma WindowOfWindow(file: seq<byte>, offset: nat, ask: nat)
    ensures Window(file, offset, ask) == Window(file, offset, |Window(file, offset, ask)|)
  {
  }

  /** Once a window has come up short, asking for more gets no more. */
  lemma WindowSaturates(file: seq<byte>, offset: nat, ask: nat, more: nat)
    requires ask <= more && |Window(file, offset, ask)| < ask
    ensures Window(file, offset, more) == Window(file, offset, ask)
  {
  }

  lemma WindowExtends(file: seq<byte>, offset: nat, done: nat, n: nat)
    ensures Window(file, offset, done) + Window(file, offset + done, n) == Window(file, offset, done + n)
  {
  }

  // -- reading from one end to the other ----------------------------------

  /** The cache after a read of one thread whose fetch, if there was one, was answered. */
  function Served(c: Cache, file: seq<byte>, readahead: nat, size: nat, offset: nat): Cache
  {
    match Probe(c, readahead, size, offset)
    case (Hit(_), after) => after
    case (Fetch(ask, keep), after) =>
      if keep then after.(start := offset, block := Window(file, offset, ask)) else after
  }

  /** How many of `n` reads of `size` bytes, one after the other from `at` on, go to the server. */
  function Fetches(c: Cache, file: seq<byte>, readahead: nat, size: nat, at: nat, n: nat): (f: nat)
    decreases n
  {
    if n == 0 then 0
    else
      (if Probe(c, readahead, size, at).0.Hit? then 0 else 1)
      + Fetches(Served(c, file, readahead, size, at), file, readahead, size, at + size, n - 1)
  }

  /** What `f` fetches in a row read ahead, doubling from `window` up to the ceiling. */
  function Gain(window: nat, f: nat): nat
    decreases f
  {
    if f == 0 then 0 else window + Gain(Min(window * 2, MAX_AHEAD), f - 1)
  }

  /** How much of the block is still ahead of a read at `at`. */
  function Left(c: Cache, at: nat): nat
  {
    if c.start <= at <= c.start + |c.block| then c.start + |c.block| - at else 0
  }

  lemma FetchedAhead(c: Cache, file: seq<byte>, readahead: nat, size: nat, at: nat)
    requires size > 0 && c.sequel == at && at + size <= |file| && !Probe(c, readahead, size, at).0.Hit?
    ensures var after := Served(c, file, readahead, size, at);
            && after.sequel == at + size && after.window == Min(c.window * 2, MAX_AHEAD)
            && Left(after, at + size) == Min(c.window, |file| - at - size) && Left(c, at) < size
  {
  }

  lemma ServedFromBlock(c: Cache, file: seq<byte>, readahead: nat, size: nat, at: nat)
    requires Probe(c, readahead, size, at).0.Hit?
    ensures var after := Served(c, file, readahead, size, at);
            && after.sequel == at + size && after.window == c.window && Left(c, at) == Left(after, at + size) + size
  {
  }

  lemma {:induction false} SequelIsCheap(c: Cache, file: seq<byte>, readahead: nat, size: nat, at: nat, n: nat)
    requires size > 0 && c.sequel == at && at + n * size <= |file|
    ensures var f := Fetches(c, file, readahead, size, at, n);
            f > 0 ==> Left(c, at) + Gain(c.window, f - 1) < n * size
    decreases n
  {
    hide Probe, Served, Left;
    if n > 0 {
      var after := Served(c, file, readahead, size, at);
      assert n * size == (n - 1) * size + size && 0 <= (n - 1) * size;
      if Probe(c, readahead, size, at).0.Hit? {
        ServedFromBlock(c, file, readahead, size, at);
      } else {
        FetchedAhead(c, file, readahead, size, at);
      }
      SequelIsCheap(after, file, readahead, size, at + size, n - 1);
    }
  }

  /**
    Reading a file through from its start, the fetches after the first two have all they read ahead
    used up: `f` of them take at least the sum of as many doubling windows, so that a scan
    costs a logarithm of requests until the window reaches its ceiling.
   */
  lemma ScanIsCheap(file: seq<byte>, readahead: nat, size: nat, n: nat)
    requires size > 0 && n * size <= |file|
    ensures var f := Fetches(Cache(0, [], -1, readahead), file, readahead, size, 0, n);
            f > 1 ==> Gain(readahead, f - 2) < (n - 1) * size
  {
    var c := Cache(0, [], -1, readahead);
    if n > 0 {
      assert n * size == (n - 1) * size + size;
      SequelIsCheap(Served(c, file, readahead, size, 0), file, readahead, size, size, n - 1);
    }
  }

  function Pow2(n: nat): (p: nat)
    ensures p > 0
  {
    if n == 0 then 1 else 2 * Pow2(n - 1)
  }

  lemma {:induction false} GainDoubles(window: nat, f: nat)
    requires window * Pow2(f) <= 2 * MAX_AHEAD
    ensures Gain(window, f) == window * (Pow2(f) - 1)
    decreases f
  {
    if f > 0 {
      var p := Pow2(f - 1);
      assert window * Pow2(f) == 2 * window * p;
      if f == 1 {
        assert Gain(Min(window * 2, MAX_AHEAD), 0) == 0;
      } else {
        assert window * p >= window * 2 by { Monotone(window, 2, p); }
        GainDoubles(window * 2, f - 1);
      }
    }
  }

  lemma Monotone(w: nat, a: nat, b: nat)
    requires a <= b
    ensures w * a <= w * b
  {
  }

  // -- any number of threads ----------------------------------------------

  /** `seen` is the incarnation of the handle that an operation which failed ran under. */
  datatype Thread =
    | Idle
    | Fetching(size: nat, offset: nat, ask: nat, keep: bool, seen: nat)
    | Lost(size: nat, offset: nat, seen: nat)                         // the plane lost the link; about to re-open
    | Chunking(size: nat, offset: nat, parts: seq<byte>)
    | Retrying(size: nat, offset: nat, parts: seq<byte>, seen: nat)   // so did the event path

  datatype Answer = Answer(size: nat, offset: nat, data: seq<byte>)

  /** A re-open: the loss it answers, the incarnation it leaves, whether the handle was open, and whether it is now. */
  datatype Reopening = Reopening(seen: nat, from: nat, wasOpen: bool, worked: bool)

  /**
    `answers`, `asked` and `reopens` are the history: every read that returned, every
    fetch with the read it was for, and every re-open.
   */
  datatype State = State(cache: Cache, threads: seq<Thread>, recoveries: nat, open: bool,
                         answers: seq<Answer>, asked: seq<(nat, nat)>, reopens: seq<Reopening>)

  datatype Handle = Handle(file: seq<byte>, readahead: nat, chunkSize: nat)

  datatype Step =
    | Call(t: nat, size: nat, offset: nat, plane: bool)  // a read enters; the plane may or may not be usable
    | Land(t: nat)                                       // the plane's bytes arrive
    | Decline(t: nat)                                    // the plane is declined
    | Lose(t: nat)                                       // the plane loses the link
    | Chunk(t: nat)                                      // one request of the event path is answered
    | Flake(t: nat)                                      // one loses the link, and the incarnation is looked at anew
    | Reopen(t: nat, worked: bool, again: bool)          // the locked re-open, which may fail, and be tried again
    | Drop(t: nat)                                       // the read raises

  predicate ReadsAhead(h: Handle, size: nat) { h.readahead > 0 && size < MAX_AHEAD }

  ghost predicate Enabled(h: Handle, s: State, step: Step)
  {
    && step.t < |s.threads|
    && var r := s.threads[step.t];
       match step
       case Call(_, size, _, _) => r.Idle? && size > 0
       case Land(_) => r.Fetching?
       case Decline(_) => r.Fetching?
       case Lose(_) => r.Fetching?
       case Chunk(_) => r.Chunking? && |r.parts| < r.size && s.open
       case Flake(_) => r.Chunking?
       case Reopen(_, _, _) => r.Lost? || r.Retrying?
       case Drop(_) => !r.Idle?
  }

  /** Whether the handle stands as it is: open, and re-opened since the loss by someone else. */
  predicate Stands(seen: nat, recoveries: nat, open: bool) { seen != recoveries && open }

  function Resumes(r: Thread): Thread
    requires r.Lost? || r.Retrying?
  {
    if r.Lost? then Chunking(r.size, r.offset, []) else Chunking(r.size, r.offset, r.parts)
  }

  /** The state after a thread's re-open: nothing, if the handle stands. */
  function Reopened(s: State, t: nat, worked: bool, again: bool): State
    requires t < |s.threads| && (s.threads[t].Lost? || s.threads[t].Retrying?)
  {
    var r := s.threads[t];
    if Stands(r.seen, s.recoveries, s.open) then Waits(s, t, Resumes(r))
    else
      var next := if worked then Resumes(r)
                  else if r.Retrying? && again then r.(seen := s.recoveries + 1)
                  else Idle;
      Waits(s, t, next).(cache := Reset(s.cache), recoveries := s.recoveries + 1, open := worked,
                         reopens := s.reopens + [Reopening(r.seen, s.recoveries, s.open, worked)])
  }

  function Waits(s: State, t: nat, to: Thread): State
    requires t < |s.threads|
  {
    s.(threads := s.threads[t := to])
  }

  function Returns(s: State, t: nat, size: nat, offset: nat, data: seq<byte>): State
    requires t < |s.threads|
  {
    s.(threads := s.threads[t := Idle], answers := s.answers + [Answer(size, offset, data)])
  }

  /** One request of the event path: what has been read by now, and whether that is all. */
  function Further(h: Handle, size: nat, offset: nat, parts: seq<byte>): (bool, seq<byte>)
    requires |parts| < size
  {
    var n := Min(size - |parts|, h.chunkSize);
    var piece := Window(h.file, offset + |parts|, n);
    (|piece| < n || |parts| + n == size, parts + piece)
  }

  ghost function After(h: Handle, s: State, step: Step): State
    requires Enabled(h, s, step)
  {
    match step
    case Call(t, size, offset, plane) =>
      if !plane then Waits(s, t, Chunking(size, offset, []))
      else if !ReadsAhead(h, size) then
        Waits(s, t, Fetching(size, offset, size, false, s.recoveries)).(asked := s.asked + [(size, size)])
      else
        var (look, cache) := Probe(s.cache, h.readahead, size, offset);
        if look.Hit? then Returns(s, t, size, offset, look.data).(cache := cache)
        else Waits(s, t, Fetching(size, offset, look.ask, look.keep, s.recoveries))
             .(cache := cache, asked := s.asked + [(size, look.ask)])
    case Land(t) =>
      var r := s.threads[t];
      var data := Window(h.file, r.offset, r.ask);
      var u := Returns(s, t, r.size, r.offset, data[..Min(r.size, |data|)]);
      if r.keep then u.(cache := s.cache.(start := r.offset, block := data)) else u
    case Decline(t) => Waits(s, t, Chunking(s.threads[t].size, s.threads[t].offset, []))
    case Lose(t) => Waits(s, t, Lost(s.threads[t].size, s.threads[t].offset, s.threads[t].seen))
    case Flake(t) => Waits(s, t, Retrying(s.threads[t].size, s.threads[t].offset, s.threads[t].parts, s.recoveries))
    case Chunk(t) =>
      var r := s.threads[t];
      var (whole, parts) := Further(h, r.size, r.offset, r.parts);
      if whole then Returns(s, t, r.size, r.offset, parts) else Waits(s, t, Chunking(r.size, r.offset, parts))
    case Drop(t) => Waits(s, t, Idle)
    case Reopen(t, worked, again) => Reopened(s, t, worked, again)
  }

  ghost predicate SoundThread(h: Handle, r: Thread)
  {
    match r
    case Idle => true
    case Fetching(size, offset, ask, _, _) => 0 < size <= ask <= size + Max(h.readahead, MAX_AHEAD)
    case Lost(size, _, _) => 0 < size
    case Chunking(size, offset, parts) =>
      |parts| < size && parts == Window(h.file, offset, |parts|)
    case Retrying(size, offset, parts, _) =>
      |parts| < size && parts == Window(h.file, offset, |parts|)
  }

  /** The read returned what an uncached one would. */
  ghost predicate Plain(h: Handle, a: Answer) { a.data == Window(h.file, a.offset, a.size) }

  predicate Bounded(h: Handle, ask: (nat, nat)) { ask.1 <= ask.0 + Max(h.readahead, MAX_AHEAD) }

  ghost predicate Inv(h: Handle, s: State)
  {
    && h.chunkSize > 0
    && Sound(s.cache, h.file, h.readahead)
    && (forall t | 0 <= t < |s.threads| :: SoundThread(h, s.threads[t]))
    && (forall i | 0 <= i < |s.answers| :: Plain(h, s.answers[i]))
    && (forall i | 0 <= i < |s.asked| :: Bounded(h, s.asked[i]))
  }

  lemma WaitsInv(h: Handle, s: State, t: nat, to: Thread)
    requires Inv(h, s) && t < |s.threads| && SoundThread(h, to)
    ensures Inv(h, Waits(s, t, to))
  {
  }

  lemma ReturnsInv(h: Handle, s: State, t: nat, size: nat, offset: nat, data: seq<byte>)
    requires Inv(h, s) && t < |s.threads| && data == Window(h.file, offset, size)
    ensures Inv(h, Returns(s, t, size, offset, data))
  {
    var u := Returns(s, t, size, offset, data);
    assert forall i | 0 <= i < |s.answers| :: u.answers[i] == s.answers[i];
  }

  lemma AskedInv(h: Handle, s: State, cache: Cache, ask: (nat, nat))
    requires Inv(h, s) && Sound(cache, h.file, h.readahead) && Bounded(h, ask)
    ensures Inv(h, s.(cache := cache, asked := s.asked + [ask]))
    ensures Inv(h, s.(cache := cache))
  {
    var u := s.(cache := cache, asked := s.asked + [ask]);
    assert forall i | 0 <= i < |s.asked| :: u.asked[i] == s.asked[i];
  }

  /** One chunk further: either the whole answer, or a longer beginning of it. */
  lemma ChunkExtends(file: seq<byte>, offset: nat, parts: seq<byte>, size: nat, n: nat)
    requires parts == Window(file, offset, |parts|) && |parts| + n <= size && 0 < n
    ensures var piece := Window(file, offset + |parts|, n);
            var more := parts + piece;
            && (|piece| < n || |parts| + n == size ==> more == Window(file, offset, size))
            && (|piece| == n ==> |more| == |parts| + n && more == Window(file, offset, |more|))
  {
    WindowExtends(file, offset, |parts|, n);
    if |Window(file, offset + |parts|, n)| < n { WindowSaturates(file, offset, |parts| + n, size); }
  }

  lemma FurtherSound(h: Handle, size: nat, offset: nat, parts: seq<byte>)
    requires h.chunkSize > 0 && |parts| < size && parts == Window(h.file, offset, |parts|)
    ensures var (whole, more) := Further(h, size, offset, parts);
            if whole then more == Window(h.file, offset, size) else SoundThread(h, Chunking(size, offset, more))
  {
    ChunkExtends(h.file, offset, parts, size, Min(size - |parts|, h.chunkSize));
  }

  lemma CallInv(h: Handle, s: State, t: nat, size: nat, offset: nat, plane: bool)
    requires Inv(h, s) && Enabled(h, s, Call(t, size, offset, plane))
    ensures Inv(h, After(h, s, Call(t, size, offset, plane)))
  {
    if !plane {
      assert [] == Window(h.file, offset, 0);
      WaitsInv(h, s, t, Chunking(size, offset, []));
    } else if !ReadsAhead(h, size) {
      WaitsInv(h, s, t, Fetching(size, offset, size, false, s.recoveries));
      AskedInv(h, Waits(s, t, Fetching(size, offset, size, false, s.recoveries)), s.cache, (size, size));
    } else {
      ProbeSound(s.cache, h.file, h.readahead, size, offset);
      var (look, cache) := Probe(s.cache, h.readahead, size, offset);
      if look.Hit? {
        ReturnsInv(h, s, t, size, offset, look.data);
        AskedInv(h, Returns(s, t, size, offset, look.data), cache, (size, size));
      } else {
        WaitsInv(h, s, t, Fetching(size, offset, look.ask, look.keep, s.recoveries));
        AskedInv(h, Waits(s, t, Fetching(size, offset, look.ask, look.keep, s.recoveries)), cache, (size, look.ask));
      }
    }
  }

  lemma LandInv(h: Handle, s: State, t: nat)
    requires Inv(h, s) && Enabled(h, s, Land(t))
    ensures Inv(h, After(h, s, Land(t)))
  {
    var r := s.threads[t];
    var data := Window(h.file, r.offset, r.ask);
    WindowPrefix(h.file, r.offset, r.ask, r.size);
    WindowOfWindow(h.file, r.offset, r.ask);
    var u := Returns(s, t, r.size, r.offset, data[..Min(r.size, |data|)]);
    ReturnsInv(h, s, t, r.size, r.offset, data[..Min(r.size, |data|)]);
    AskedInv(h, u, s.cache.(start := r.offset, block := data), (0, 0));
  }

  lemma ChunkInv(h: Handle, s: State, t: nat)
    requires Inv(h, s) && Enabled(h, s, Chunk(t))
    ensures Inv(h, After(h, s, Chunk(t)))
  {
    var r := s.threads[t];
    FurtherSound(h, r.size, r.offset, r.parts);
    var (whole, parts) := Further(h, r.size, r.offset, r.parts);
    if whole { ReturnsInv(h, s, t, r.size, r.offset, parts); }
    else { WaitsInv(h, s, t, Chunking(r.size, r.offset, parts)); }
  }

  lemma NothingRead(file: seq<byte>, offset: nat)
    ensures [] == Window(file, offset, 0)
  {
  }

  lemma ReopenInv(h: Handle, s: State, t: nat, worked: bool, again: bool)
    requires Inv(h, s) && Enabled(h, s, Reopen(t, worked, again))
    ensures Inv(h, After(h, s, Reopen(t, worked, again)))
  {
    var r, u := s.threads[t], After(h, s, Reopen(t, worked, again));
    NothingRead(h.file, r.offset);
    assert SoundThread(h, u.threads[t]);
    WaitsInv(h, s, t, u.threads[t]);
    AskedInv(h, Waits(s, t, u.threads[t]), Reset(s.cache), (0, 0));
  }

  lemma StepInv(h: Handle, s: State, step: Step)
    requires Inv(h, s) && Enabled(h, s, step)
    ensures Inv(h, After(h, s, step))
  {
    match step
    case Call(t, size, offset, plane) => CallInv(h, s, t, size, offset, plane);
    case Land(t) => LandInv(h, s, t);
    case Chunk(t) => ChunkInv(h, s, t);
    case Decline(t) =>
      NothingRead(h.file, s.threads[t].offset);
      WaitsInv(h, s, t, Chunking(s.threads[t].size, s.threads[t].offset, []));
    case Lose(t) => WaitsInv(h, s, t, Lost(s.threads[t].size, s.threads[t].offset, s.threads[t].seen));
    case Flake(t) =>
      WaitsInv(h, s, t, Retrying(s.threads[t].size, s.threads[t].offset, s.threads[t].parts, s.recoveries));
    case Reopen(t, worked, again) => ReopenInv(h, s, t, worked, again);
    case Drop(t) => WaitsInv(h, s, t, Idle);
  }

  // -- re-opening ---------------------------------------------------------

  predicate SeenBy(r: Thread, recoveries: nat)
  {
    (r.Fetching? || r.Lost? || r.Retrying?) ==> r.seen <= recoveries
  }

  /** A re-open of an open handle answers a loss of the very incarnation it leaves. */
  predicate Answers(r: Reopening) { r.seen <= r.from && (r.wasOpen ==> r.seen == r.from) }

  /** The history of re-opens: one leaves each incarnation, and the handle is open unless the last one failed. */
  ghost predicate History(rs: seq<Reopening>, recoveries: nat, open: bool)
  {
    && |rs| == recoveries && open == (rs == [] || rs[|rs| - 1].worked) && (rs != [] ==> rs[0].wasOpen)
    && (forall i | 0 <= i < |rs| :: rs[i].from == i && Answers(rs[i]))
    && (forall i, k | 0 <= i < k < |rs| && k == i + 1 :: rs[k].wasOpen == rs[i].worked)
  }

  lemma HistoryGrows(rs: seq<Reopening>, recoveries: nat, open: bool, seen: nat, worked: bool)
    requires History(rs, recoveries, open) && seen <= recoveries && !Stands(seen, recoveries, open)
    ensures History(rs + [Reopening(seen, recoveries, open, worked)], recoveries + 1, worked)
  {
    var more := rs + [Reopening(seen, recoveries, open, worked)];
    assert forall i | 0 <= i < |rs| :: more[i] == rs[i];
  }

  ghost predicate AllSeen(threads: seq<Thread>, recoveries: nat)
  {
    forall t | 0 <= t < |threads| :: SeenBy(threads[t], recoveries)
  }

  ghost predicate Orderly(s: State)
  {
    History(s.reopens, s.recoveries, s.open) && AllSeen(s.threads, s.recoveries)
  }

  lemma SeenStill(threads: seq<Thread>, t: nat, r: Thread, recoveries: nat, more: nat)
    requires AllSeen(threads, recoveries) && t < |threads| && SeenBy(r, more) && recoveries <= more
    ensures AllSeen(threads[t := r], more)
  {
  }

  lemma ReopenOrderly(s: State, t: nat, worked: bool, again: bool)
    requires Orderly(s) && t < |s.threads| && (s.threads[t].Lost? || s.threads[t].Retrying?)
    ensures Orderly(Reopened(s, t, worked, again))
  {
    var r, u := s.threads[t], Reopened(s, t, worked, again);
    assert SeenBy(r, s.recoveries);
    hide History, AllSeen;
    SeenStill(s.threads, t, u.threads[t], s.recoveries, u.recoveries);
    if !Stands(r.seen, s.recoveries, s.open) { HistoryGrows(s.reopens, s.recoveries, s.open, r.seen, worked); }
  }

  lemma StepOrderly(h: Handle, s: State, step: Step)
    requires Orderly(s) && Enabled(h, s, step)
    ensures Orderly(After(h, s, step))
  {
    assert SeenBy(s.threads[step.t], s.recoveries);
    hide History, AllSeen, Window;
    if step.Reopen? {
      ReopenOrderly(s, step.t, step.worked, step.again);
    } else {
      var u := After(h, s, step);
      assert u.threads == s.threads[step.t := u.threads[step.t]];
      SeenStill(s.threads, step.t, u.threads[step.t], s.recoveries, s.recoveries);
    }
  }

  lemma {:induction false} RunsOrderly(h: Handle, s: State, steps: seq<Step>, t: State)
    requires Orderly(s) && Runs(h, s, steps, t)
    ensures Orderly(t)
    decreases |steps|
  {
    hide Orderly;
    if steps != [] {
      StepOrderly(h, s, steps[0]);
      RunsOrderly(h, After(h, s, steps[0]), steps[1..], t);
    }
  }

  /**
    In every run, of all the losses that threads see under one incarnation of an open
    handle at most one re-opens it; the others find it re-opened. Each re-open leaves
    the incarnation after the one before, and one that answers an older loss does so
    only because the open before it failed.
   */
  lemma OneReopenAnIncarnation(h: Handle, threads: nat, steps: seq<Step>, s: State)
    requires Runs(h, Fresh(h, threads), steps, s)
    ensures |s.reopens| == s.recoveries
    ensures forall i, k | 0 <= i < k < |s.reopens| && s.reopens[i].wasOpen && s.reopens[k].wasOpen ::
              s.reopens[i].seen != s.reopens[k].seen
    ensures forall i | 0 <= i < |s.reopens| :: s.reopens[i].from == i && s.reopens[i].seen <= i
    ensures forall i | 0 <= i < |s.reopens| && s.reopens[i].seen < i :: !s.reopens[i - 1].worked
  {
    RunsOrderly(h, Fresh(h, threads), steps, s);
  }

  /** A thread that goes on after a loss goes on under a later incarnation, of an open handle. */
  lemma ResumesLater(h: Handle, threads: nat, steps: seq<Step>, s: State, t: nat, worked: bool, again: bool)
    requires Runs(h, Fresh(h, threads), steps, s) && Enabled(h, s, Reopen(t, worked, again))
    ensures var u := After(h, s, Reopen(t, worked, again));
            u.threads[t].Chunking? ==> u.open && u.recoveries > s.threads[t].seen
  {
    RunsOrderly(h, Fresh(h, threads), steps, s);
  }

  ghost predicate Runs(h: Handle, s: State, steps: seq<Step>, t: State)
    decreases |steps|
  {
    if steps == [] then s == t
    else Enabled(h, s, steps[0]) && Runs(h, After(h, s, steps[0]), steps[1..], t)
  }

  function Fresh(h: Handle, threads: nat): State
  {
    State(Cache(0, [], -1, h.readahead), seq(threads, _ => Idle), 0, true, [], [], [])
  }

  lemma {:induction false} RunsInv(h: Handle, s: State, steps: seq<Step>, t: State)
    requires Inv(h, s) && Runs(h, s, steps, t)
    ensures Inv(h, t)
    decreases |steps|
  {
    if steps != [] {
      StepInv(h, s, steps[0]);
      RunsInv(h, After(h, s, steps[0]), steps[1..], t);
    }
  }

  /**
    On a file that does not change, every read that returns - however many threads
    share the handle, however their reads interleave, whenever it is re-opened -
    returns exactly what an uncached read would; and no fetch asks for more than
    its read plus the larger of the configured readahead and 8 MiB.
   */
  lemma CachedReadsArePlainReads(h: Handle, threads: nat, steps: seq<Step>, s: State)
    requires h.chunkSize > 0 && Runs(h, Fresh(h, threads), steps, s)
    ensures forall i | 0 <= i < |s.answers| :: Plain(h, s.answers[i])
    ensures forall i | 0 <= i < |s.asked| :: Bounded(h, s.asked[i])
  {
    RunsInv(h, Fresh(h, threads), steps, s);
  }

  // -- every read can return ----------------------------------------------

  ghost predicate Returned(h: Handle, s: State, u: State, t: nat, size: nat, offset: nat)
  {
    && u.answers == s.answers + [Answer(size, offset, Window(h.file, offset, size))]
    && t < |u.threads| && u.threads[t].Idle?
  }

  /** A run in which the thread's read returns, and nobody else's. */
  ghost predicate CanReturn(h: Handle, s: State, t: nat, size: nat, offset: nat)
  {
    exists steps, u :: Runs(h, s, steps, u) && Returned(h, s, u, t, size, offset)
  }

  lemma StepFirst(h: Handle, s: State, step: Step, t: nat, size: nat, offset: nat)
    requires Enabled(h, s, step) && After(h, s, step).answers == s.answers
    requires CanReturn(h, After(h, s, step), t, size, offset)
    ensures CanReturn(h, s, t, size, offset)
  {
    hide Enabled, After;
    var steps, u :| Runs(h, After(h, s, step), steps, u) && Returned(h, After(h, s, step), u, t, size, offset);
    assert ([step] + steps)[1..] == steps;
    assert Runs(h, s, [step] + steps, u);
  }

  lemma LastStep(h: Handle, s: State, step: Step, t: nat, size: nat, offset: nat)
    requires Enabled(h, s, step)
    requires Returned(h, s, After(h, s, step), t, size, offset)
    ensures CanReturn(h, s, t, size, offset)
  {
    hide Enabled, After;
    assert [step][1..] == [];
    assert Runs(h, After(h, s, step), [], After(h, s, step));
    assert Runs(h, s, [step], After(h, s, step));
  }

  lemma {:induction false} ChunksReturn(h: Handle, s: State, t: nat)
    requires Inv(h, s) && t < |s.threads| && s.threads[t].Chunking? && s.open
    ensures CanReturn(h, s, t, s.threads[t].size, s.threads[t].offset)
    decreases s.threads[t].size - |s.threads[t].parts|
  {
    var r := s.threads[t];
    assert SoundThread(h, r);
    FurtherSound(h, r.size, r.offset, r.parts);
    StepInv(h, s, Chunk(t));
    if Further(h, r.size, r.offset, r.parts).0 {
      LastStep(h, s, Chunk(t), t, r.size, r.offset);
    } else {
      ChunksReturn(h, After(h, s, Chunk(t)), t);
      StepFirst(h, s, Chunk(t), t, r.size, r.offset);
    }
  }

  lemma ReopenedReturns(h: Handle, s: State, t: nat)
    requires Inv(h, s) && t < |s.threads| && (s.threads[t].Lost? || s.threads[t].Retrying?)
    ensures CanReturn(h, s, t, s.threads[t].size, s.threads[t].offset)
  {
    var step := Reopen(t, true, false);
    StepInv(h, s, step);
    ChunksReturn(h, After(h, s, step), t);
    StepFirst(h, s, step, t, s.threads[t].size, s.threads[t].offset);
  }

  lemma FetchedReturns(h: Handle, s: State, t: nat)
    requires Inv(h, s) && t < |s.threads| && s.threads[t].Fetching?
    ensures CanReturn(h, s, t, s.threads[t].size, s.threads[t].offset)
  {
    var r := s.threads[t];
    assert SoundThread(h, r);
    WindowPrefix(h.file, r.offset, r.ask, r.size);
    LastStep(h, s, Land(t), t, r.size, r.offset);
  }

  /**
    Whatever has happened - losses, failed re-opens, other threads anywhere in theirs -
    a read that has begun can still return, with what an uncached one would give.
   */
  lemma EveryReadCanReturn(h: Handle, threads: nat, steps: seq<Step>, s: State, t: nat)
    requires h.chunkSize > 0 && Runs(h, Fresh(h, threads), steps, s) && t < |s.threads| && !s.threads[t].Idle?
    ensures CanReturn(h, s, t, s.threads[t].size, s.threads[t].offset)
  {
    RunsInv(h, Fresh(h, threads), steps, s);
    var r := s.threads[t];
    if r.Fetching? {
      FetchedReturns(h, s, t);
    } else if r.Lost? || r.Retrying? {
      ReopenedReturns(h, s, t);
    } else if s.open {
      ChunksReturn(h, s, t);
    } else {
      StepInv(h, s, Flake(t));
      ReopenedReturns(h, After(h, s, Flake(t)), t);
      StepFirst(h, s, Flake(t), t, r.size, r.offset);
    }
  }

  // -- one thread's read, step by step ------------------------------------

  datatype ReadError = TooLarge | Raised

  /** What came of a read on the plane. */
  datatype Plane = Got(data: seq<byte>) | Declined | Broke

  class Reader {
    const handle: Handle
    /** The most a read to the end may ask for; 0 for no limit. */
    const maxRead: nat
    var cache: Cache
    var recoveries: nat
    var open: bool
    /** How often the link was lost under a read. */
    ghost var losses: nat

    constructor (h: Handle, maxRead: nat)
      requires h.chunkSize > 0
      ensures Valid() && handle == h && open
    {
      handle, this.maxRead, cache, recoveries, open := h, maxRead, Cache(0, [], -1, h.readahead), 0, true;
    }

    ghost predicate Valid()
      reads this
    {
      handle.chunkSize > 0 && Sound(cache, handle.file, handle.readahead)
    }

    /** What other threads may do to the handle meanwhile: re-open it, or fail to, and fill the cache. */
    method Others()
      requires Valid()
      modifies this`cache, this`recoveries, this`open
      ensures Valid() && recoveries >= old(recoveries)
    {
      var times: int, worked: bool := *, *;
      if times > 0 {
        cache, recoveries, open := Reset(cache), recoveries + times, worked;
      }
    }

    /**
      Re-open after a loss seen under incarnation `seen`. A thread that gets a handle
      back has one of a later incarnation; a handle someone else has re-opened is left
      alone, and one whose re-open failed is tried again, whoever saw it fail.
     */
    method Reopen(seen: nat) returns (ok: bool)
      requires Valid() && seen <= recoveries
      modifies this`cache, this`recoveries, this`open
      ensures Valid() && (ok ==> open && recoveries > seen)
      ensures Stands(seen, old(recoveries), old(open)) ==> ok && recoveries == old(recoveries) && cache == old(cache)
      ensures !Stands(seen, old(recoveries), old(open)) ==>
                recoveries == old(recoveries) + 1 && cache == Reset(old(cache))
    {
      if seen != recoveries && open { return true; }
      cache := Reset(cache);
      recoveries := recoveries + 1;
      open := *;
      ok := open;
    }

    /** The plane: all that was asked for up to end of file, or declined, with a re-open if the link was lost. */
    method PlaneRead(size: nat, offset: nat) returns (p: Plane)
      requires Valid()
      modifies this`cache, this`recoveries, this`open, this`losses
      ensures Valid() && recoveries >= old(recoveries) && losses >= old(losses)
      ensures p.Got? ==> p.data == Window(handle.file, offset, size) && cache == old(cache)
      ensures p.Broke? ==> !old(open) || losses > old(losses)
    {
      if !open { return Broke; }
      var seen := recoveries;
      var got: bool, lost: bool := *, *;
      if got { return Got(Window(handle.file, offset, size)); }
      if !lost { return Declined; }
      losses := losses + 1;
      Others();
      var ok := Reopen(seen);
      p := if ok then Declined else Broke;
    }

    /** A chunk at a time until a short one. */
    method EventRead(size: nat, offset: nat) returns (r: Result<seq<byte>, ReadError>)
      requires Valid()
      modifies this`losses
      ensures r != Err(TooLarge) && losses == old(losses) + (if r.Ok? then 0 else 1)
      ensures r.Ok? ==> r.value == Window(handle.file, offset, size)
    {
      var parts: seq<byte> := [];
      NothingRead(handle.file, offset);
      var at, remaining := offset, size;
      while remaining > 0
        invariant at == offset + |parts| && remaining + |parts| == size && remaining >= 0
        invariant parts == Window(handle.file, offset, |parts|) && losses == old(losses)
        decreases remaining
      {
        var lost: bool := *;
        if lost {
          losses := losses + 1;
          return Err(Raised);
        }
        var n := Min(remaining, handle.chunkSize);
        var chunk := Window(handle.file, at, n);
        ChunkExtends(handle.file, offset, parts, size, n);
        parts := parts + chunk;
        if |chunk| < n { return Ok(parts); }
        at := at + n;
        remaining := remaining - n;
      }
      r := Ok(parts);
    }

    /** A read that may be answered from the block, or read ahead for the next ones. */
    method Sequential(size: nat, offset: nat) returns (p: Plane)
      requires Valid() && size > 0
      modifies this`cache, this`recoveries, this`open, this`losses
      ensures Valid() && losses >= old(losses)
      ensures p.Got? ==> p.data == Window(handle.file, offset, size)
      ensures p.Got? ==> cache == Served(old(cache), handle.file, handle.readahead, size, offset)
      ensures Probe(old(cache), handle.readahead, size, offset).0.Hit? ==> p.Got? && losses == old(losses)
      ensures p.Broke? ==> !old(open) || losses > old(losses)
    {
      ProbeSound(cache, handle.file, handle.readahead, size, offset);
      var (look, after) := Probe(cache, handle.readahead, size, offset);
      cache := after;
      if look.Hit? { return Got(look.data); }
      p := PlaneRead(look.ask, offset);
      if p.Got? {
        WindowPrefix(handle.file, offset, look.ask, size);
        WindowOfWindow(handle.file, offset, look.ask);
        if look.keep { cache := cache.(start := offset, block := p.data); }
        p := Got(p.data[..Min(size, |p.data|)]);
      }
    }

    /** A read of `size` bytes, or to the end of the file for a negative size. */
    method Read(size: int, offset: nat, plane: bool) returns (r: Result<seq<byte>, ReadError>)
      requires Valid()
      modifies this`cache, this`recoveries, this`open, this`losses
      ensures Valid()
      ensures r == Err(Raised) ==> !old(open) || losses > old(losses)
      ensures r.Ok? ==> r.value == Window(handle.file, offset, if size < 0 then |handle.file| else size)
      ensures r == Err(TooLarge) <==> size < 0 && 0 < maxRead < Max(|handle.file| - offset, 0)
    {
      var want: nat := if size < 0 then Max(|handle.file| - offset, 0) else size;
      if size < 0 && maxRead > 0 && want > maxRead { return Err(TooLarge); }
      assert Window(handle.file, offset, if size < 0 then |handle.file| else size) == Window(handle.file, offset, want);
      if want == 0 { return Ok([]); }
      if plane {
        var p;
        if ReadsAhead(handle, want) { p := Sequential(want, offset); } else { p := PlaneRead(want, offset); }
        if p.Got? { return Ok(p.data); }
        if p.Broke? { return Err(Raised); }
      }
      r := EventRead(want, offset);
    }
  }
}
