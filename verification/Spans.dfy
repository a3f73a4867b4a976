/** How a transfer divides a file between its workers. */
module Spans {
  import opened Wrappers
  import opened Bytes

  datatype Span = Span(start: nat, length: nat)
  {
    function End(): nat { start + length }
  }

  function CeilDiv(a: nat, b: nat): (q: nat)
    requires b > 0
    ensures (q - 1) * b < a <= q * b || (a == 0 && q == 0)
  {
    (a + b - 1) / b
  }

  /**
    The number of workers and their request size. The configuration stands in for
    `workers` when that is absent, and for `chunk` when that is absent or zero.
   */
  function Plan(size: nat, bulkWorkers: int, bulkChunk: nat, workers: Option<int>, chunk: nat)
    : (plan: (nat, nat))
    requires bulkChunk > 0
    ensures 1 <= plan.0 && 0 < plan.1
  {
    var request := if chunk > 0 then chunk else bulkChunk;
    var want := Max(1, if workers.Some? then workers.value else bulkWorkers);
    (Max(1, Min(want, if size > 0 then CeilDiv(size, request) else 1)), request)
  }

  /**
    As many connections as are wanted, at least one, unless fewer chunks cover the
    file: each connection beyond the first is there because the others' chunks do not.
   */
  lemma PlanIsWorthIt(size: nat, bulkWorkers: int, bulkChunk: nat, workers: Option<int>, chunk: nat)
    requires bulkChunk > 0
    ensures var plan := Plan(size, bulkWorkers, bulkChunk, workers, chunk);
            var want := Max(1, if workers.Some? then workers.value else bulkWorkers);
            && plan.1 == (if chunk > 0 then chunk else bulkChunk)
            && plan.0 <= want && (plan.0 > 1 ==> (plan.0 - 1) * plan.1 < size)
            && (plan.0 < want ==> size <= plan.0 * plan.1)
  {
    var plan := Plan(size, bulkWorkers, bulkChunk, workers, chunk);
    if plan.0 > 1 { Multiplied(plan.0 - 1, CeilDiv(size, plan.1) - 1, plan.1); }
    Multiplied(CeilDiv(size, plan.1), Max(1, CeilDiv(size, plan.1)), plan.1);
  }

  lemma Multiplied(a: nat, b: nat, c: nat)
    requires a <= b
    ensures a * c <= b * c
  {
  }

  /** Pieces of `step` bytes from `start` up to `size`, the last one cut short. */
  function Cut(start: nat, size: nat, step: nat): (spans: seq<Span>)
    requires step > 0
    decreases size - start
  {
    if start >= size then []
    else [Span(start, Min(step, size - start))] + Cut(start + step, size, step)
  }

  /** `size` split into contiguous pieces for `workers` of them; an empty file is one empty piece. */
  function Split(size: int, workers: nat): (spans: seq<Span>)
  {
    if size <= 0 then [Span(0, 0)]
    else Cut(0, size, if workers > 0 then CeilDiv(size, workers) else size)
  }

  /** The pieces lie end to end from one byte to another, and none is empty. */
  ghost predicate TilesFrom(spans: seq<Span>, from: nat, to: nat)
  {
    && (spans == [] ==> from == to)
    && (spans != [] ==> spans[0].start == from && spans[|spans| - 1].End() == to)
    && (forall i | 0 <= i < |spans| :: spans[i].length > 0)
    && (forall i | 0 <= i < |spans| - 1 :: spans[i + 1].start == spans[i].End())
  }

  ghost predicate Tiles(spans: seq<Span>, total: nat) { TilesFrom(spans, 0, total) }

  /** Every piece is of one length, but for a shorter last one. */
  ghost predicate Even(spans: seq<Span>, step: nat)
  {
    forall i | 0 <= i < |spans| :: spans[i].length <= step && (i < |spans| - 1 ==> spans[i].length == step)
  }

  lemma {:induction false} CutTiles(start: nat, size: nat, step: nat)
    requires step > 0 && start <= size
    ensures TilesFrom(Cut(start, size, step), start, size)
    ensures |Cut(start, size, step)| * step < size - start + step
    ensures Even(Cut(start, size, step), step)
    decreases size - start
  {
    if start < size {
      var next := start + step;
      var first, rest := Span(start, Min(step, size - start)), Cut(next, size, step);
      if next < size {
        CutTiles(next, size, step);
        OneMorePiece(first, rest, size, step);
      } else {
        assert rest == [] && [first] + rest == [first];
      }
      OneMore(|rest|, step);
    }
  }

  lemma OneMore(n: nat, step: nat)
    ensures (n + 1) * step == n * step + step
  {
  }

  lemma OneMorePiece(first: Span, rest: seq<Span>, size: nat, step: nat)
    requires first.length == step > 0 && TilesFrom(rest, first.End(), size) && Even(rest, step)
    ensures TilesFrom([first] + rest, first.start, size) && Even([first] + rest, step)
  {
    var all := [first] + rest;
    assert forall i | 0 < i < |all| :: all[i] == rest[i - 1];
  }

  lemma Smaller(a: nat, b: nat, c: nat)
    requires a * c < (b + 1) * c
    ensures a <= b
  {
    if a > b { Multiplied(b + 1, a, c); }
  }

  /** The non-empty pieces tile the file evenly, and there are at most `workers` of them. */
  lemma SplitTiles(size: nat, workers: nat)
    requires workers > 0
    ensures size > 0 ==> Tiles(Split(size, workers), size) && |Split(size, workers)| <= workers
    ensures size > 0 ==> Even(Split(size, workers), CeilDiv(size, workers))
    ensures size == 0 ==> Split(size, workers) == [Span(0, 0)]
  {
    if size > 0 {
      var step := CeilDiv(size, workers);
      CutTiles(0, size, step);
      OneMore(workers, step);
      Smaller(|Split(size, workers)|, workers, step);
    }
  }

  /** Every earlier piece of a tiling ends at or before a later one starts. */
  lemma {:induction false} TilesOrdered(spans: seq<Span>, total: nat, i: nat, k: nat)
    requires Tiles(spans, total) && i < k < |spans|
    ensures spans[i].End() <= spans[k].start
    ensures spans[k].End() <= total
    decreases |spans| - i
  {
    TilesWithin(spans, total, k);
    if i + 1 < k { TilesOrdered(spans, total, i + 1, k); }
  }

  lemma {:induction false} TilesWithin(spans: seq<Span>, total: nat, k: nat)
    requires Tiles(spans, total) && k < |spans|
    ensures spans[k].End() <= total
    decreases |spans| - k
  {
    if k + 1 < |spans| { TilesWithin(spans, total, k + 1); }
  }

  /** Every byte of the file belongs to some piece. */
  lemma {:induction false} TilesCover(spans: seq<Span>, total: nat, p: nat, from: nat) returns (i: nat)
    requires Tiles(spans, total) && p < total
    requires from < |spans| && spans[from].start <= p
    ensures i < |spans| && spans[i].start <= p < spans[i].End()
    decreases |spans| - from
  {
    if p < spans[from].End() { i := from; }
    else { i := TilesCover(spans, total, p, from + 1); }
  }
}
