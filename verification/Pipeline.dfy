/** Writes in flight together on the bulk plane, answered in any order, some told to wait. */
module Pipeline {
  import opened Bytes
  import opened Spans
  import opened Batching
  import opened Remote

  datatype Streamed = Acked(count: nat) | Unsupported | Failed

  // -- stretches ----------------------------------------------------------

  ghost predicate Holds(spans: seq<Span>, p: nat)
  {
    exists k | 0 <= k < |spans| :: spans[k].start <= p < spans[k].End()
  }

  ghost predicate Inside(spans: seq<Span>, start: nat, length: nat)
  {
    forall k | 0 <= k < |spans| :: start <= spans[k].start && spans[k].End() <= start + length
  }

  function Lengths(spans: seq<Span>): nat
  {
    if spans == [] then 0 else spans[0].length + Lengths(spans[1..])
  }

  lemma {:induction false} LengthsAppend(a: seq<Span>, b: seq<Span>)
    ensures Lengths(a + b) == Lengths(a) + Lengths(b)
  {
    if a == [] {
      assert a + b == b;
    } else {
      LengthsAppend(a[1..], b);
      assert (a + b)[1..] == a[1..] + b;
    }
  }

  function Without<T>(s: seq<T>, q: nat): (r: seq<T>)
    requires q < |s|
    ensures |r| == |s| - 1
  {
    s[..q] + s[q + 1..]
  }

  lemma LengthsWithout(spans: seq<Span>, q: nat)
    requires q < |spans|
    ensures Lengths(Without(spans, q)) == Lengths(spans) - spans[q].length
  {
    LengthsAppend(spans[..q], spans[q..]);
    LengthsAppend(spans[..q], spans[q + 1..]);
    assert spans == spans[..q] + spans[q..] && spans[q..][1..] == spans[q + 1..];
  }

  lemma HoldsWithout(spans: seq<Span>, q: nat, p: nat)
    requires q < |spans| && Holds(spans, p)
    ensures Holds(Without(spans, q), p) || spans[q].start <= p < spans[q].End()
  {
    var k :| 0 <= k < |spans| && spans[k].start <= p < spans[k].End();
    if k < q { assert Without(spans, q)[k] == spans[k]; }
    else if k > q { assert Without(spans, q)[k - 1] == spans[k]; }
  }

  lemma HoldsMore(spans: seq<Span>, s: Span, p: nat)
    ensures Holds(spans + [s], p) <==> Holds(spans, p) || s.start <= p < s.End()
  {
    if Holds(spans, p) {
      var k :| 0 <= k < |spans| && spans[k].start <= p < spans[k].End();
      assert (spans + [s])[k] == spans[k];
    }
    assert (spans + [s])[|spans|] == s;
  }

  /** The places a stretch covers. */
  ghost function Places(s: Span): (ps: set<nat>)
    ensures forall p: nat :: p in ps <==> s.start <= p < s.End()
    ensures |ps| == s.length
    decreases s.length
  {
    if s.length == 0 then {} else Places(Span(s.start, s.length - 1)) + {s.End() - 1}
  }

  /** The bytes of one stretch. */
  function Stretch(data: seq<byte>, start: nat, s: Span): seq<byte>
    requires start <= s.start && s.End() <= start + |data|
  {
    data[s.start - start..s.End() - start]
  }

  // -- what is in the file ------------------------------------------------

  /**
    The file is what it was `before`, with the bytes of `data` at exactly the places
    `stored`: it ends where it did or behind the last of them, and a gap reads as zeros.
   */
  ghost predicate Filled(before: seq<byte>, content: seq<byte>, data: seq<byte>, start: nat, stored: set<nat>)
  {
    EndsWith(before, content, stored) && InPlace(content, data, start, stored) && Untouched(before, content, stored)
  }

  ghost predicate EndsWith(before: seq<byte>, content: seq<byte>, stored: set<nat>)
  {
    |before| <= |content| && (|content| > |before| ==> |content| - 1 in stored)
  }

  ghost predicate InPlace(content: seq<byte>, data: seq<byte>, start: nat, stored: set<nat>)
  {
    forall p | p in stored :: start <= p < start + |data| && p < |content| && content[p] == data[p - start]
  }

  ghost predicate Untouched(before: seq<byte>, content: seq<byte>, stored: set<nat>)
  {
    forall p: nat | p < |content| && p !in stored :: content[p] == if p < |before| then before[p] else 0
  }

  lemma EndsWithMore(before: seq<byte>, content: seq<byte>, stored: set<nat>, s: Span, body: seq<byte>)
    requires EndsWith(before, content, stored) && |body| == s.length
    ensures EndsWith(before, Overlay(content, s.start, body), stored + Places(s))
  {
    hide Places, Overlay;
  }

  lemma InPlaceMore(content: seq<byte>, data: seq<byte>, start: nat, stored: set<nat>, s: Span, body: seq<byte>)
    requires InPlace(content, data, start, stored) && start <= s.start && s.End() <= start + |data|
    requires body == Stretch(data, start, s)
    ensures InPlace(Overlay(content, s.start, body), data, start, stored + Places(s))
  {
    hide Places, Overlay;
  }

  lemma UntouchedMore(before: seq<byte>, content: seq<byte>, stored: set<nat>, s: Span, body: seq<byte>)
    requires Untouched(before, content, stored) && |body| == s.length && |before| <= |content|
    ensures Untouched(before, Overlay(content, s.start, body), stored + Places(s))
  {
    hide Places, Overlay;
  }

  lemma FilledMore(before: seq<byte>, content: seq<byte>, data: seq<byte>, start: nat, stored: set<nat>, s: Span)
    requires Filled(before, content, data, start, stored) && start <= s.start && s.End() <= start + |data|
    ensures Filled(before, Overlay(content, s.start, Stretch(data, start, s)), data, start, stored + Places(s))
  {
    hide InPlace, Untouched, Overlay, Places;
    var body := Stretch(data, start, s);
    EndsWithMore(before, content, stored, s, body);
    InPlaceMore(content, data, start, stored, s, body);
    UntouchedMore(before, content, stored, s, body);
  }

  /** All of the data is stored: one overlay. */
  lemma FilledWhole(before: seq<byte>, content: seq<byte>, data: seq<byte>, start: nat, stored: set<nat>)
    requires Filled(before, content, data, start, stored) && forall p: nat | start <= p < start + |data| :: p in stored
    ensures content == Overlay(before, start, data)
  {
    if data != [] { assert start + |data| - 1 in stored; }
  }

  // -- the pipeline -------------------------------------------------------

  /** Every place up to `length` is stored, in flight or told to wait. */
  ghost predicate Covers(stored: set<nat>, start: nat, length: nat, pending: seq<Span>, waited: seq<Span>)
  {
    forall p: nat | start <= p < start + length :: p in stored || Holds(pending, p) || Holds(waited, p)
  }

  lemma CoversIssue(stored: set<nat>, start: nat, length: nat, pending: seq<Span>, waited: seq<Span>, more: nat)
    requires Covers(stored, start, length, pending, waited)
    ensures Covers(stored, start, length + more, pending + [Span(start + length, more)], waited)
  {
    forall p: nat | start <= p < start + length + more
      ensures p in stored || Holds(pending + [Span(start + length, more)], p) || Holds(waited, p)
    {
      HoldsMore(pending, Span(start + length, more), p);
    }
  }

  /** A stretch that is stored is no longer owed. */
  lemma CoversAck(stored: set<nat>, start: nat, length: nat, pending: seq<Span>, waited: seq<Span>, q: nat)
    requires Covers(stored, start, length, pending, waited) && q < |pending|
    ensures Covers(stored + Places(pending[q]), start, length, Without(pending, q), waited)
  {
    hide Places;
    forall p: nat | start <= p < start + length
      ensures p in stored + Places(pending[q]) || Holds(Without(pending, q), p) || Holds(waited, p)
    {
      if Holds(pending, p) { HoldsWithout(pending, q, p); }
    }
  }

  /** A stretch told to wait stays owed, on the other list. */
  lemma CoversWait(stored: set<nat>, start: nat, length: nat, pending: seq<Span>, waited: seq<Span>, q: nat)
    requires Covers(stored, start, length, pending, waited) && q < |pending|
    ensures Covers(stored, start, length, Without(pending, q), waited + [pending[q]])
  {
    forall p: nat | start <= p < start + length
      ensures p in stored || Holds(Without(pending, q), p) || Holds(waited + [pending[q]], p)
    {
      HoldsMore(waited, pending[q], p);
      if Holds(pending, p) { HoldsWithout(pending, q, p); }
    }
  }

  lemma InsideWithout(pending: seq<Span>, q: nat, start: nat, length: nat)
    requires q < |pending| && Inside(pending, start, length)
    ensures Inside(Without(pending, q), start, length)
  {
  }

  /** What the exchange has done so far with the first `n` pieces. */
  ghost predicate Progress(before: seq<byte>, content: seq<byte>, data: seq<byte>, length: nat, start: nat,
                           stored: set<nat>, pending: seq<Span>, waited: seq<Span>, acked: nat)
  {
    && length <= |data| && Filled(before, content, data, start, stored)
    && Covers(stored, start, length, pending, waited)
    && Inside(pending, start, length) && Inside(waited, start, length)
    && acked + Lengths(pending) + Lengths(waited) == length && |stored| <= acked
  }

  lemma ProgressIssue(before: seq<byte>, content: seq<byte>, data: seq<byte>, length: nat, start: nat,
                      stored: set<nat>, pending: seq<Span>, waited: seq<Span>, acked: nat, more: nat)
    requires Progress(before, content, data, length, start, stored, pending, waited, acked) && length + more <= |data|
    ensures Progress(before, content, data, length + more, start, stored,
                     pending + [Span(start + length, more)], waited, acked)
  {
    hide Filled, Covers;
    CoversIssue(stored, start, length, pending, waited, more);
    LengthsAppend(pending, [Span(start + length, more)]);
  }

  lemma ProgressWait(before: seq<byte>, content: seq<byte>, data: seq<byte>, length: nat, start: nat,
                     stored: set<nat>, pending: seq<Span>, waited: seq<Span>, acked: nat, q: nat)
    requires Progress(before, content, data, length, start, stored, pending, waited, acked) && q < |pending|
    ensures Progress(before, content, data, length, start, stored, Without(pending, q), waited + [pending[q]], acked)
  {
    hide Filled, Covers;
    CoversWait(stored, start, length, pending, waited, q);
    InsideWithout(pending, q, start, length);
    LengthsWithout(pending, q);
    LengthsAppend(waited, [pending[q]]);
  }

  lemma ProgressAck(before: seq<byte>, content: seq<byte>, data: seq<byte>, length: nat, start: nat,
                    stored: set<nat>, pending: seq<Span>, waited: seq<Span>, acked: nat, q: nat)
    requires Progress(before, content, data, length, start, stored, pending, waited, acked) && q < |pending|
    ensures var s := pending[q];
            Progress(before, Overlay(content, s.start, Stretch(data, start, s)), data, length, start,
                     stored + Places(s), Without(pending, q), waited, acked + s.length)
  {
    hide Filled, Covers, Overlay;
    var s := pending[q];
    FilledMore(before, content, data, start, stored, s);
    CoversAck(stored, start, length, pending, waited, q);
    InsideWithout(pending, q, start, length);
    LengthsWithout(pending, q);
    UnionSize(stored, Places(s));
  }

  lemma UnionSize(a: set<nat>, b: set<nat>)
    ensures |a + b| <= |a| + |b|
    ensures |a + b| == |a| + |b| ==> a !! b
  {
    assert a + b == a + (b - a);
    assert |b - a| + |a * b| == |b| by { assert b == (b - a) + (a * b); }
  }

  lemma {:induction false} FlattenPrefix(pieces: seq<seq<byte>>, n: nat)
    requires n <= |pieces|
    ensures Flatten(pieces[..n]) <= Flatten(pieces)
  {
    FlattenAppend(pieces[..n], pieces[n..]);
    assert pieces == pieces[..n] + pieces[n..];
  }

  lemma NextPiece(pieces: seq<seq<byte>>, n: nat)
    requires n < |pieces|
    ensures |Flatten(pieces[..n + 1])| == |Flatten(pieces[..n])| + |pieces[n]| <= |Flatten(pieces)|
    ensures pieces[n] == Flatten(pieces)[|Flatten(pieces[..n])|..|Flatten(pieces[..n + 1])|]
  {
    FlattenSnoc(pieces[..n], pieces[n]);
    assert pieces[..n + 1] == pieces[..n] + [pieces[n]];
    FlattenPrefix(pieces, n + 1);
  }

  lemma StillPartly(before: seq<byte>, content: seq<byte>, after: seq<byte>, data: seq<byte>, start: nat, s: Span)
    requires Partly(before, content, start, data) && start <= s.start && s.End() <= start + |data|
    requires Partly(content, after, s.start, Stretch(data, start, s))
    ensures Partly(before, after, start, data)
  {
    PartlyNests(before, content, after, start, data, s.start - start, s.End() - start);
  }

  /**
    The pieces back to back from `start`, several in flight, answered in any
    order. A piece told to wait is not stored: with `reports` it is returned for
    sending again, otherwise it fails the stream. `taken` counts the pieces asked
    of the source. When it returns a count, the file is exactly what the pieces
    acknowledged make of it, every other piece is a returned stretch, and count
    and stretches add up to the pieces. A piece over `chunk` bytes is an error. If no
    request fails, it returns a count, unless it was put off: a busy plane before any
    piece was asked for, or a wait that nobody takes reports of.
   */
  method WriteChunks(remote: File, pieces: seq<seq<byte>>, start: nat, chunk: nat, depth: nat, reports: bool)
    returns (s: Streamed, waited: seq<Span>, taken: nat, ghost stored: set<nat>)
    requires remote.journal.None? && depth > 0 && remote.Unsplit() && !remote.append
    modifies remote
    ensures remote.journal.None? && remote.Unsplit()
    ensures Partly(old(remote.content), remote.content, start, Flatten(pieces))
    ensures s.Acked? ==> Progress(old(remote.content), remote.content, Flatten(pieces), |Flatten(pieces)|, start,
                                  stored, [], waited, s.count)
    ensures !reports ==> waited == []
    ensures taken == 0 ==> remote.content == old(remote.content)
    ensures remote.failed >= old(remote.failed) && remote.putOff >= old(remote.putOff)
    ensures remote.failed == old(remote.failed) && Small(pieces, chunk) ==>
              && !s.Failed? && (s.Unsupported? ==> remote.putOff > old(remote.putOff) && (reports ==> taken == 0))
              && (remote.putOff == old(remote.putOff) ==> waited == [])
  {
    waited, taken, stored := [], 0, {};
    var busy: bool := *;
    assert pieces[..0] == [];
    if busy {
      remote.PutOff();
      return Unsupported, [], 0, {};
    }
    var pending: seq<Span> := [];
    var acked, offset := 0, start;
    s := Acked(0);
    var data := Flatten(pieces);
    ghost var length := 0;
    while (taken < |pieces| && s.Acked?) || pending != []
      invariant remote.journal.None? && remote.Unsplit()
      invariant taken <= |pieces| && length == |Flatten(pieces[..taken])| <= |data| && offset == start + length
      invariant Partly(old(remote.content), remote.content, start, data)
      invariant Inside(pending, start, length)
      invariant s.Acked? ==>
                  Progress(old(remote.content), remote.content, data, length, start, stored, pending, waited, acked)
      invariant !reports ==> waited == []
      invariant taken == 0 ==> pending == [] && remote.content == old(remote.content)
      invariant remote.failed >= old(remote.failed) && remote.putOff >= old(remote.putOff)
      invariant remote.failed == old(remote.failed) && Small(pieces, chunk) ==>
                  && !s.Failed? && (s.Unsupported? ==> remote.putOff > old(remote.putOff) && !reports)
                  && (remote.putOff == old(remote.putOff) ==> waited == [])
      decreases 2 * (|pieces| - taken) + |pending|
    {
      hide Progress, Partly, Flatten;
      if taken < |pieces| && s.Acked? && |pending| < depth {
        NextPiece(pieces, taken);
        var size := |pieces[taken]|;
        if size > chunk {
          s := Failed;
        } else {
          // An empty piece is passed over; listing it as an empty stretch in flight comes to the same.
          ProgressIssue(old(remote.content), remote.content, data, length, start, stored, pending, waited, acked, size);
          pending := pending + [Span(offset, size)];
        }
        offset := offset + size;
        length := length + size;
        taken := taken + 1;
      } else {
        s, pending, waited, acked, stored :=
          Answer(remote, data, length, start, s, stored, pending, waited, acked, reports, old(remote.content));
      }
    }
    if s.Acked? {
      s := Acked(acked);
      assert pieces[..taken] == pieces;
    }
  }

  predicate Small(pieces: seq<seq<byte>>, chunk: nat) { forall i | 0 <= i < |pieces| :: |pieces[i]| <= chunk }

  /** One reply, to whichever write in flight it happens to answer. `data` is what the pieces hold together. */
  method Answer(remote: File, data: seq<byte>, ghost length: nat, start: nat, s: Streamed, ghost stored: set<nat>,
                pending: seq<Span>, waited: seq<Span>, acked: nat, reports: bool, ghost before: seq<byte>)
    returns (s': Streamed, pending': seq<Span>, waited': seq<Span>, acked': nat, ghost stored': set<nat>)
    requires remote.journal.None? && remote.Unsplit() && !remote.append && pending != [] && length <= |data|
    requires Partly(before, remote.content, start, data) && Inside(pending, start, length)
    requires s.Acked? ==> Progress(before, remote.content, data, length, start, stored, pending, waited, acked)
    modifies remote
    ensures remote.journal.None? && remote.Unsplit() && |pending'| == |pending| - 1
    ensures Partly(before, remote.content, start, data) && Inside(pending', start, length)
    ensures s'.Acked? ==>
              s.Acked? && Progress(before, remote.content, data, length, start, stored', pending', waited', acked')
    ensures !reports ==> waited' == waited
    ensures remote.failed >= old(remote.failed) && remote.putOff >= old(remote.putOff)
    ensures remote.failed == old(remote.failed) ==>
              s' == s || (s'.Unsupported? && !reports && remote.putOff > old(remote.putOff))
    ensures remote.putOff == old(remote.putOff) ==> waited' == waited
  {
    hide Progress, Partly;
    var pick: int := *;
    var q: nat := if 0 <= pick < |pending| then pick else 0;
    var span := pending[q];
    InsideWithout(pending, q, start, length);
    s', pending', waited', acked', stored' := s, Without(pending, q), waited, acked, stored;
    var wait: bool := *;
    if wait {
      remote.PutOff();
      if !reports {
        s' := if s.Acked? then Unsupported else s;
        return;
      }
      if s.Acked? { ProgressWait(before, remote.content, data, length, start, stored, pending, waited, acked, q); }
      waited' := waited + [span];
    } else {
      ghost var content := remote.content;
      var ok := remote.Store(false, 0, span.start, Stretch(data, start, span), false);
      StillPartly(before, content, remote.content, data, start, span);
      if !ok {
        s' := if s.Acked? then Failed else s;
        return;
      }
      if s.Acked? { ProgressAck(before, content, data, length, start, stored, pending, waited, acked, q); }
      acked', stored' := acked + span.length, stored + Places(span);
    }
  }
}
