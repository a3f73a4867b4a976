/** Vector writes: chunks cut to what one element may hold, batched, and sent in order. */
module VectorWrite {
  import opened Bytes
  import opened Batching
  import opened Remote
  import opened Writing

  const MAX_ELEMENT: nat := MAX_BYTES

  datatype Chunk = Chunk(offset: nat, data: seq<byte>)

  function Size(c: Chunk): nat { |c.data| }

  /** The file after every chunk has been stored, in order: where they overlap the last one shows. */
  function ApplyAll(file: seq<byte>, chunks: seq<Chunk>): seq<byte>
    decreases chunks
  {
    if chunks == [] then file
    else ApplyAll(Overlay(file, chunks[0].offset, chunks[0].data), chunks[1..])
  }

  lemma {:induction false} ApplyAppend(file: seq<byte>, a: seq<Chunk>, b: seq<Chunk>)
    ensures ApplyAll(file, a + b) == ApplyAll(ApplyAll(file, a), b)
    decreases a
  {
    hide Overlay;
    if a == [] {
      assert a + b == b;
    } else {
      ApplyAppend(Overlay(file, a[0].offset, a[0].data), a[1..], b);
      assert (a + b)[1..] == a[1..] + b;
    }
  }

  /** A chunk as elements no longer than the server takes. */
  function Cut(c: Chunk): (pieces: seq<Chunk>)
    ensures forall i | 0 <= i < |pieces| :: Size(pieces[i]) <= MAX_ELEMENT
    decreases |c.data|
  {
    if |c.data| <= MAX_ELEMENT then [c]
    else [Chunk(c.offset, c.data[..MAX_ELEMENT])] + Cut(Chunk(c.offset + MAX_ELEMENT, c.data[MAX_ELEMENT..]))
  }

  function CutAll(chunks: seq<Chunk>): (pieces: seq<Chunk>)
    ensures forall i | 0 <= i < |pieces| :: Size(pieces[i]) <= MAX_ELEMENT
  {
    if chunks == [] then [] else Cut(chunks[0]) + CutAll(chunks[1..])
  }

  function Total(chunks: seq<Chunk>): nat
  {
    if chunks == [] then 0 else Size(chunks[0]) + Total(chunks[1..])
  }

  function HighWater(chunks: seq<Chunk>): nat
  {
    if chunks == [] then 0 else Max(chunks[0].offset + Size(chunks[0]), HighWater(chunks[1..]))
  }

  lemma {:induction false} TotalAppend(a: seq<Chunk>, b: seq<Chunk>)
    ensures Total(a + b) == Total(a) + Total(b)
    ensures HighWater(a + b) == Max(HighWater(a), HighWater(b))
  {
    if a == [] {
      assert a + b == b;
    } else {
      TotalAppend(a[1..], b);
      assert (a + b)[1..] == a[1..] + b;
    }
  }

  /** Cutting a chunk changes neither what it writes, nor how much, nor how far. */
  lemma {:induction false} CutKeepsMeaning(file: seq<byte>, c: Chunk)
    ensures ApplyAll(file, Cut(c)) == Overlay(file, c.offset, c.data)
    ensures Total(Cut(c)) == Size(c) && HighWater(Cut(c)) == c.offset + Size(c)
    decreases |c.data|
  {
    if |c.data| <= MAX_ELEMENT {
      assert Cut(c)[1..] == [];
    } else {
      var first := Chunk(c.offset, c.data[..MAX_ELEMENT]);
      var rest := Chunk(c.offset + MAX_ELEMENT, c.data[MAX_ELEMENT..]);
      CutKeepsMeaning(Overlay(file, first.offset, first.data), rest);
      assert Cut(c)[1..] == Cut(rest);
      OverlayJoins(file, c.offset, first.data, rest.data);
      assert first.data + rest.data == c.data;
    }
  }

  /** Cutting every chunk keeps the meaning of the whole list, overlaps and all. */
  lemma {:induction false} CutAllKeepsMeaning(file: seq<byte>, chunks: seq<Chunk>)
    ensures ApplyAll(file, CutAll(chunks)) == ApplyAll(file, chunks)
    ensures Total(CutAll(chunks)) == Total(chunks) && HighWater(CutAll(chunks)) == HighWater(chunks)
    decreases chunks
  {
    if chunks != [] {
      var c := chunks[0];
      CutKeepsMeaning(file, c);
      CutAllKeepsMeaning(Overlay(file, c.offset, c.data), chunks[1..]);
      ApplyAppend(file, Cut(c), CutAll(chunks[1..]));
      TotalAppend(Cut(c), CutAll(chunks[1..]));
    }
  }

  /** What one vector write may carry. */
  ghost predicate Acceptable(batch: seq<Chunk>)
  {
    && 0 < |batch| <= MAX_CHUNKS && Weight(batch, Size) <= MAX_BYTES
    && forall i | 0 <= i < |batch| :: Size(batch[i]) <= MAX_ELEMENT
  }

  // -- what unanswered requests leave -------------------------------------

  /** Bytes of the chunks may have been stored, and nothing else has changed. */
  ghost predicate Touched(before: seq<byte>, after: seq<byte>, chunks: seq<Chunk>)
  {
    && |before| <= |after| <= Max(|before|, HighWater(chunks))
    && forall p | 0 <= p < |after| ::
         after[p] == (if p < |before| then before[p] else 0) || Bears(chunks, p, after[p])
  }

  /** Some chunk has this byte for this place. */
  ghost predicate Bears(chunks: seq<Chunk>, p: nat, b: byte)
  {
    exists k | 0 <= k < |chunks| ::
      chunks[k].offset <= p < chunks[k].offset + |chunks[k].data| && chunks[k].data[p - chunks[k].offset] == b
  }

  lemma BearsMore(chunks: seq<Chunk>, c: Chunk, p: nat, b: byte)
    requires Bears(chunks, p, b) || (c.offset <= p < c.offset + |c.data| && c.data[p - c.offset] == b)
    ensures Bears(chunks + [c], p, b)
  {
    var more := chunks + [c];
    assert more[|chunks|] == c;
    if Bears(chunks, p, b) {
      var k :| 0 <= k < |chunks| && chunks[k].offset <= p < chunks[k].offset + |chunks[k].data|
               && chunks[k].data[p - chunks[k].offset] == b;
      assert more[k] == chunks[k];
    }
  }

  lemma TouchedMore(before: seq<byte>, mid: seq<byte>, after: seq<byte>, chunks: seq<Chunk>, c: Chunk)
    requires Touched(before, mid, chunks) && Partly(mid, after, c.offset, c.data)
    ensures Touched(before, after, chunks + [c])
  {
    TotalAppend(chunks, [c]);
    forall p | 0 <= p < |after|
      ensures after[p] == (if p < |before| then before[p] else 0) || Bears(chunks + [c], p, after[p])
    {
      if !(after[p] == if p < |before| then before[p] else 0) {
        if !(c.offset <= p < c.offset + |c.data| && c.data[p - c.offset] == after[p]) { assert after[p] == mid[p]; }
        BearsMore(chunks, c, p, after[p]);
      }
    }
  }

  /** One vector write request, on the control link: answered, every element is stored, in order. */
  method Send(remote: File, batch: seq<Chunk>) returns (ok: bool)
    requires Acceptable(batch) && remote.journal.None? && remote.Unsplit()
    modifies remote
    ensures remote.journal.None? && remote.Unsplit()
    ensures ok && !remote.append ==> remote.content == ApplyAll(old(remote.content), batch)
    ensures !remote.append ==> Touched(old(remote.content), remote.content, batch)
    ensures remote.failed >= old(remote.failed) && (remote.failed == old(remote.failed) ==> ok)
  {
    hide Overlay, Partly, Touched, Bears;
    ok := true;
    TouchedNone(remote.content);
    assert batch[..0] == [];
    for n := 0 to |batch|
      invariant remote.journal.None? && remote.Unsplit()
      invariant ok && !remote.append ==> remote.content == ApplyAll(old(remote.content), batch[..n])
      invariant !remote.append ==> Touched(old(remote.content), remote.content, batch[..n])
      invariant remote.failed >= old(remote.failed) && (remote.failed == old(remote.failed) ==> ok)
    {
      ghost var mid := remote.content;
      var stored := remote.Store(false, 0, batch[n].offset, batch[n].data, false);
      ok := ok && stored;
      ApplyAppend(old(remote.content), batch[..n], [batch[n]]);
      assert batch[..n + 1] == batch[..n] + [batch[n]];
      if !remote.append { TouchedMore(old(remote.content), mid, remote.content, batch[..n], batch[n]); }
    }
    assert batch[..|batch|] == batch;
  }

  lemma TouchedNone(content: seq<byte>)
    ensures Touched(content, content, [])
  {
  }

  datatype Outcome = Wrote(count: nat) | Refused | Failed

  /**
    The elements up to some place have been stored in order, and of those up to a later
    one, all in one request, any bytes.
   */
  ghost predicate Broken(before: seq<byte>, after: seq<byte>, pieces: seq<Chunk>)
  {
    exists done: nat, asked: nat | done <= asked <= |pieces| ::
      asked - done <= MAX_CHUNKS && Touched(ApplyAll(before, pieces[..done]), after, pieces[done..asked])
  }

  /**
    A vector write: the chunks in order, in requests the server takes (the
    precondition of `Send`), leaving the file as if each had been written whole;
    the count and the high-water mark are exact. If a request fails, those before it
    have been carried out and only bytes of its own chunks changed. Refused inside a
    checkpoint.
   */
  method WriteV(h: Handle, chunks: seq<Chunk>) returns (r: Outcome)
    requires h.Valid()
    modifies h`sizeHint, h`statKnown, h.remote
    ensures h.Valid()
    ensures h.checkpoint && chunks != [] ==> r.Refused?
    ensures h.checkpoint ==> h.remote.content == old(h.remote.content) && h.remote.journal == old(h.remote.journal)
    ensures r.Wrote? ==> r.count == Total(chunks)
    ensures r.Wrote? && !h.append ==> h.remote.content == ApplyAll(old(h.remote.content), chunks)
    ensures r.Wrote? && chunks != [] ==> h.sizeHint == Max(old(h.sizeHint), HighWater(chunks)) && !h.statKnown
    ensures !r.Wrote? ==> h.sizeHint == old(h.sizeHint)
    ensures r.Refused? ==> h.remote.content == old(h.remote.content)
    ensures r.Failed? && !h.append ==> Broken(old(h.remote.content), h.remote.content, CutAll(chunks))
    ensures h.remote.failed >= old(h.remote.failed) && (h.remote.failed == old(h.remote.failed) ==> !r.Failed?)
    ensures r.Refused? ==> h.checkpoint && chunks != [] && h.remote.failed == old(h.remote.failed)
  {
    if chunks == [] { return Wrote(0); }
    if h.checkpoint { return Refused; }
    hide Broken;
    var pieces := CutAll(chunks);
    var batches := Batches(pieces, Size);
    forall b | 0 <= b < |batches| ensures Acceptable(batches[b]) { BatchAcceptable(chunks, batches, b); }
    CutAllKeepsMeaning(h.remote.content, chunks);
    var ok, total, high := SendAll(h.remote, batches);
    if !ok { return Failed; }
    h.Invalidate(high, false);
    r := Wrote(total);
  }

  lemma BatchAcceptable(chunks: seq<Chunk>, batches: seq<seq<Chunk>>, b: nat)
    requires Flatten(batches) == CutAll(chunks) && b < |batches| && Fits(batches[b], Size)
    ensures Acceptable(batches[b])
  {
    forall i | 0 <= i < |batches[b]| ensures Size(batches[b][i]) <= MAX_ELEMENT {
      var k := BatchWithin(batches, b, i);
      assert Size(CutAll(chunks)[k]) <= MAX_ELEMENT;
    }
    FitsBytes(batches[b], Size);
  }

  /** `chunks` have been stored over `start`, and counted. */
  ghost predicate Sent(append: bool, start: seq<byte>, content: seq<byte>, chunks: seq<Chunk>, total: nat, high: nat)
  {
    && (!append ==> content == ApplyAll(start, chunks))
    && total == Total(chunks) && high == HighWater(chunks)
  }

  method SendNext(remote: File, batch: seq<Chunk>, ghost start: seq<byte>, ghost sent: seq<Chunk>, total: nat,
                  high: nat)
    returns (ok: bool, t: nat, hi: nat)
    requires Acceptable(batch) && remote.journal.None? && remote.Unsplit()
    requires Sent(remote.append, start, remote.content, sent, total, high)
    modifies remote
    ensures remote.journal.None? && remote.Unsplit()
    ensures ok ==> Sent(remote.append, start, remote.content, sent + batch, t, hi)
    ensures !remote.append ==> Touched(ApplyAll(start, sent), remote.content, batch)
    ensures remote.failed >= old(remote.failed) && (remote.failed == old(remote.failed) ==> ok)
  {
    hide Touched;
    ok := Send(remote, batch);
    ApplyAppend(start, sent, batch);
    t, hi := Tally(sent, batch, total, high);
  }

  /** The requests one after another, counting as each is answered. */
  method SendAll(remote: File, batches: seq<seq<Chunk>>) returns (ok: bool, total: nat, high: nat)
    requires remote.journal.None? && remote.Unsplit() && forall b | 0 <= b < |batches| :: Acceptable(batches[b])
    modifies remote
    ensures remote.journal.None? && remote.Unsplit()
    ensures ok ==> Sent(remote.append, old(remote.content), remote.content, Flatten(batches), total, high)
    ensures !ok && !remote.append ==> Broken(old(remote.content), remote.content, Flatten(batches))
    ensures remote.failed >= old(remote.failed) && (remote.failed == old(remote.failed) ==> ok)
  {
    hide Sent, Flatten, Acceptable, Touched, Broken;
    ok, total, high := true, 0, 0;
    SentNothing(remote.append, remote.content);
    assert batches[..0] == [];
    var n := 0;
    while n < |batches| && ok
      invariant n <= |batches| && remote.journal.None? && remote.Unsplit()
      invariant ok ==> Sent(remote.append, old(remote.content), remote.content, Flatten(batches[..n]), total, high)
      invariant !ok && !remote.append ==> Broken(old(remote.content), remote.content, Flatten(batches))
      invariant remote.failed >= old(remote.failed) && (remote.failed == old(remote.failed) ==> ok)
      decreases |batches| - n
    {
      ok, total, high := SendNext(remote, batches[n], old(remote.content), Flatten(batches[..n]), total, high);
      if !ok && !remote.append { BreaksOff(old(remote.content), remote.content, batches, n); }
      FlattenNext(batches, n);
      n := n + 1;
    }
    if ok { assert batches[..n] == batches; }
  }

  lemma BreaksOff(start: seq<byte>, content: seq<byte>, batches: seq<seq<Chunk>>, n: nat)
    requires n < |batches| && Acceptable(batches[n])
    requires Touched(ApplyAll(start, Flatten(batches[..n])), content, batches[n])
    ensures Broken(start, content, Flatten(batches))
  {
    hide Touched, ApplyAll;
    var first, all := Flatten(batches[..n]), Flatten(batches);
    var done, asked := |first|, |first| + |batches[n]|;
    FlattenAppend(batches[..n], batches[n..]);
    assert batches == batches[..n] + batches[n..] && batches[n..][0] == batches[n];
    assert all[..done] == first && all[done..asked] == batches[n];
  }

  lemma SentNothing(append: bool, content: seq<byte>)
    ensures Sent(append, content, content, Flatten([]), 0, 0)
  {
  }

  /** The running count and high-water mark, one batch further. */
  method Tally(ghost sent: seq<Chunk>, batch: seq<Chunk>, total: nat, high: nat) returns (t: nat, hi: nat)
    requires total == Total(sent) && high == HighWater(sent)
    ensures t == Total(sent + batch) && hi == HighWater(sent + batch)
  {
    t, hi := total, high;
    assert sent + batch[..0] == sent;
    for i := 0 to |batch|
      invariant t == Total(sent + batch[..i]) && hi == HighWater(sent + batch[..i])
    {
      TotalAppend(sent + batch[..i], [batch[i]]);
      assert sent + batch[..i + 1] == (sent + batch[..i]) + [batch[i]];
      t := t + |batch[i].data|;
      hi := Max(hi, batch[i].offset + |batch[i].data|);
    }
    assert batch[..|batch|] == batch;
  }
}
