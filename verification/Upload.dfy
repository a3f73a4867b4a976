/** Uploading a local file: pieces through the pipeline, and those told to wait read and written again. */
module Upload {
  import opened Wrappers
  import opened Bytes
  import opened Spans
  import opened Batching
  import opened Remote
  import opened Pipeline
  import opened Writing
  import Checkpoint
  import Sets

  // -- the source ---------------------------------------------------------

  /** A local file from where it stood. A re-read is one pread(2), which may be short, and every one is noted. */
  class Source {
    const local: seq<byte>
    const start: nat
    /** What was asked for again, and how much of it came. */
    ghost var reread: seq<(Span, nat)>

    constructor (local: seq<byte>, start: nat)
      requires start <= |local|
      ensures this.local == local && this.start == start && reread == []
    {
      this.local, this.start, reread := local, start, [];
    }

    ghost predicate Valid() { start <= |local| }

    function Data(): seq<byte>
      requires Valid()
    {
      local[start..]
    }

    method Reread(s: Span) returns (piece: seq<byte>)
      requires Valid() && s.End() <= |Data()|
      modifies this
      ensures |piece| <= s.length && piece == Data()[s.start..s.start + |piece|]
      ensures reread == old(reread) + [(s, |piece|)]
    {
      var got: int := *;
      var n: nat := if 0 <= got <= s.length then got else s.length;
      piece := local[start + s.start..start + s.start + n];
      reread := reread + [(s, n)];
    }
  }

  // -- sending again ------------------------------------------------------

  ghost function Asked(again: seq<(Span, nat)>): (spans: seq<Span>)
    ensures |spans| == |again| && forall i | 0 <= i < |again| :: spans[i] == again[i].0
  {
    seq(|again|, i requires 0 <= i < |again| => again[i].0)
  }

  /** No re-read gives more than was asked for. */
  ghost predicate Bounded(again: seq<(Span, nat)>, length: nat)
  {
    forall i | 0 <= i < |again| :: again[i].1 <= again[i].0.length && again[i].0.End() <= length
  }

  /** The file after every re-read has been written at its place. */
  ghost function Resent(content: seq<byte>, data: seq<byte>, again: seq<(Span, nat)>): seq<byte>
    requires Bounded(again, |data|)
    decreases |again|
  {
    if again == [] then content
    else
      var s, n := again[0].0, again[0].1;
      Resent(Overlay(content, s.start, Stretch(data, 0, Span(s.start, n))), data, again[1..])
  }

  /** The places that were filled again. */
  ghost function Refilled(again: seq<(Span, nat)>): set<nat>
    decreases |again|
  {
    if again == [] then {} else Places(Span(again[0].0.start, again[0].1)) + Refilled(again[1..])
  }

  /** What the short ones missed. */
  ghost predicate Missed(again: seq<(Span, nat)>, p: nat)
  {
    exists k | 0 <= k < |again| :: again[k].0.start + again[k].1 <= p < again[k].0.End()
  }

  /** Every byte missed is a zero below the end of the file. */
  ghost predicate Unmissed(data: seq<byte>, again: seq<(Span, nat)>)
  {
    forall p: nat | Missed(again, p) && p < |data| :: data[p] == 0 && p + 1 < |data|
  }

  lemma {:induction false} ResentFills(before: seq<byte>, content: seq<byte>, data: seq<byte>, stored: set<nat>,
                                       again: seq<(Span, nat)>)
    requires Filled(before, content, data, 0, stored) && Bounded(again, |data|)
    ensures Filled(before, Resent(content, data, again), data, 0, stored + Refilled(again))
    decreases |again|
  {
    hide Filled, Overlay, Places;
    if again == [] {
      assert stored + Refilled(again) == stored;
    } else {
      var s := Span(again[0].0.start, again[0].1);
      FilledMore(before, content, data, 0, stored, s);
      ResentFills(before, Overlay(content, s.start, Stretch(data, 0, s)), data, stored + Places(s), again[1..]);
      assert stored + Places(s) + Refilled(again[1..]) == stored + Refilled(again);
    }
  }

  // -- counting tells that nothing overlaps -------------------------------

  ghost function AllPlaces(spans: seq<Span>): set<nat>
  {
    if spans == [] then {} else Places(spans[0]) + AllPlaces(spans[1..])
  }

  lemma {:induction false} AllPlacesHold(spans: seq<Span>, p: nat)
    ensures p in AllPlaces(spans) <==> Holds(spans, p)
  {
    if spans != [] {
      AllPlacesHold(spans[1..], p);
      if Holds(spans[1..], p) {
        var k :| 0 <= k < |spans[1..]| && spans[1..][k].start <= p < spans[1..][k].End();
        assert spans[k + 1] == spans[1..][k];
      }
      if Holds(spans, p) && p !in Places(spans[0]) {
        var k :| 0 <= k < |spans| && spans[k].start <= p < spans[k].End();
        assert spans[1..][k - 1] == spans[k];
      }
    }
  }

  lemma {:induction false} AllPlacesCount(stored: set<nat>, spans: seq<Span>)
    ensures |stored + AllPlaces(spans)| <= |stored| + Lengths(spans)
    decreases |spans|
  {
    hide Places;
    if spans == [] {
      assert stored + AllPlaces(spans) == stored;
    } else {
      AllPlacesCount(stored + Places(spans[0]), spans[1..]);
      UnionSize(stored, Places(spans[0]));
      assert stored + Places(spans[0]) + AllPlaces(spans[1..]) == stored + AllPlaces(spans);
    }
  }

  /** The stretches overlap neither what is stored nor each other. */
  ghost predicate Separate(stored: set<nat>, spans: seq<Span>)
    decreases |spans|
  {
    spans == [] || (stored !! Places(spans[0]) && Separate(stored + Places(spans[0]), spans[1..]))
  }

  lemma {:induction false} CountSeparates(stored: set<nat>, spans: seq<Span>)
    requires |stored| + Lengths(spans) <= |stored + AllPlaces(spans)|
    ensures Separate(stored, spans)
    decreases |spans|
  {
    hide Places;
    if spans != [] {
      var more := stored + Places(spans[0]);
      assert more + AllPlaces(spans[1..]) == stored + AllPlaces(spans);
      AllPlacesCount(more, spans[1..]);
      UnionSize(stored, Places(spans[0]));
      CountSeparates(more, spans[1..]);
    }
  }

  lemma {:induction false} SeparateApart(stored: set<nat>, spans: seq<Span>)
    requires Separate(stored, spans)
    ensures stored !! AllPlaces(spans)
    decreases |spans|
  {
    hide Places;
    if spans != [] { SeparateApart(stored + Places(spans[0]), spans[1..]); }
  }

  lemma {:induction false} RefilledWithin(again: seq<(Span, nat)>, length: nat)
    requires Bounded(again, length)
    ensures Refilled(again) <= AllPlaces(Asked(again))
    decreases |again|
  {
    if again != [] {
      RefilledWithin(again[1..], length);
      assert Asked(again)[1..] == Asked(again[1..]);
    }
  }

  lemma MissedFirst(again: seq<(Span, nat)>, p: nat)
    requires again != []
    ensures Missed(again, p) <==> again[0].0.start + again[0].1 <= p < again[0].0.End() || Missed(again[1..], p)
  {
    if Missed(again[1..], p) {
      var k :| 0 <= k < |again[1..]| && again[1..][k].0.start + again[1..][k].1 <= p < again[1..][k].0.End();
      assert again[k + 1] == again[1..][k];
    }
    if k :| 0 <= k < |again| && again[k].0.start + again[k].1 <= p < again[k].0.End() {
      assert k > 0 ==> again[1..][k - 1] == again[k];
    }
  }

  /** What is told to wait is missed, filled again, or was stored all along, and never two of these. */
  lemma {:induction false} MissedIsMissing(stored: set<nat>, again: seq<(Span, nat)>, length: nat, p: nat)
    requires Bounded(again, length) && Separate(stored, Asked(again))
    requires p in stored || Holds(Asked(again), p)
    ensures Missed(again, p) <==> p !in stored + Refilled(again)
    decreases |again|
  {
    if again != [] {
      var spans, s := Asked(again), again[0].0;
      assert spans[1..] == Asked(again[1..]);
      MissedFirst(again, p);
      RefilledWithin(again[1..], length);
      SeparateApart(stored + Places(s), spans[1..]);
      AllPlacesHold(spans, p);
      AllPlacesHold(spans[1..], p);
      if p in stored + Places(s) || Holds(spans[1..], p) { MissedIsMissing(stored + Places(s), again[1..], length, p); }
    }
  }

  lemma FilledIsData(content: seq<byte>, data: seq<byte>, stored: set<nat>)
    requires Filled([], content, data, 0, stored)
    ensures content == data <==> forall p: nat | p < |data| && p !in stored :: data[p] == 0 && p + 1 < |data|
  {
    if forall p: nat | p < |data| && p !in stored :: data[p] == 0 && p + 1 < |data| {
      if data != [] { assert |data| - 1 in stored; }
      if content != [] { assert |content| - 1 in stored; }
    }
    if content == data {
      forall p: nat | p < |data| && p !in stored ensures data[p] == 0 && p + 1 < |data| { assert content[p] == 0; }
    }
  }

  /**
    After the exchange on the plane, with everything told to wait read once more: the
    file is the data if and only if whatever short reads missed is zeros below its end.
   */
  lemma ResentExactly(content: seq<byte>, data: seq<byte>, stored: set<nat>, again: seq<(Span, nat)>, acked: nat)
    requires Progress([], content, data, |data|, 0, stored, [], Asked(again), acked) && Bounded(again, |data|)
    ensures Resent(content, data, again) == data <==> Unmissed(data, again)
  {
    hide Filled, Resent, Missed, Places;
    ResentFills([], content, data, stored, again);
    FilledIsData(Resent(content, data, again), data, stored + Refilled(again));
    WaitedSeparate(content, data, stored, Asked(again), acked);
    forall p: nat | p < |data| ensures Missed(again, p) <==> p !in stored + Refilled(again) {
      assert p in stored || Holds([], p) || Holds(Asked(again), p);
      MissedIsMissing(stored, again, |data|, p);
    }
  }

  lemma WaitedSeparate(content: seq<byte>, data: seq<byte>, stored: set<nat>, waited: seq<Span>, acked: nat)
    requires Progress([], content, data, |data|, 0, stored, [], waited, acked)
    ensures Separate(stored, waited)
  {
    hide Places;
    var all := Places(Span(0, |data|));
    forall p | p in all ensures p in stored + AllPlaces(waited) {
      assert p in stored || Holds([], p) || Holds(waited, p);
      AllPlacesHold(waited, p);
    }
    Sets.SubsetSize(all, stored + AllPlaces(waited));
    CountSeparates(stored, waited);
  }

  /** The least of it: two bytes told to wait, one of them read again, and both counted. */
  lemma ShortReread()
    ensures var again := [(Span(0, 2), 1)];
            && Progress([], [], [1, 2], 2, 0, {}, [], Asked(again), 0)
            && Resent([], [1, 2], again) == [1] && !Unmissed([1, 2], again)
  {
    var again := [(Span(0, 2), 1)];
    assert Asked(again) == [Span(0, 2)];
    var s := Asked(again)[0];
    assert s.start == 0 && s.End() == 2;
    forall p: nat | 0 <= p < 2 ensures Holds(Asked(again), p) { assert s.start <= p < s.End(); }
    assert again[1..] == [] && [Span(0, 2)][1..] == [];
    assert Stretch([1, 2], 0, Span(0, 1)) == [1];
    assert Overlay([], 0, [1]) == [1];
    assert again[0].0.start + again[0].1 <= 1 < again[0].0.End();
    assert Missed(again, 1);
  }

  // -- the upload ---------------------------------------------------------

  /** One more re-read is written over what the others left. */
  lemma {:induction false} ResentStep(content: seq<byte>, data: seq<byte>, again: seq<(Span, nat)>, s: Span, n: nat)
    requires Bounded(again + [(s, n)], |data|) && n <= s.length && s.End() <= |data|
    ensures Bounded(again, |data|)
    ensures Resent(content, data, again + [(s, n)]) ==
            Overlay(Resent(content, data, again), s.start, Stretch(data, 0, Span(s.start, n)))
    decreases |again|
  {
    hide Overlay;
    var all := again + [(s, n)];
    assert forall i | 0 <= i < |again| :: all[i] == again[i];
    assert all[|again|] == (s, n);
    if again == [] {
      assert all[1..] == [];
    } else {
      assert all[1..] == again[1..] + [(s, n)];
      var t := Span(again[0].0.start, again[0].1);
      ResentStep(Overlay(content, t.start, Stretch(data, 0, t)), data, again[1..], s, n);
    }
  }

  /**
    The waited stretches read again and written at their places, one at a time. Each is
    counted whole, however much of it came.
   */
  method Resend(h: Handle, source: Source, waited: seq<Span>, acked: nat) returns (r: Result<nat, Failure>)
    requires h.Valid() && !h.checkpoint && !h.append && source.Valid() && source.reread == []
    requires Inside(waited, 0, |source.Data()|) && acked + Lengths(waited) == |source.Data()|
    modifies h`turn, h`dataPaths, h`multistream, h`sizeHint, h`statKnown, h.remote, source
    ensures r.Ok? ==> r.value == |source.Data()| && Asked(source.reread) == waited
    ensures Bounded(source.reread, |source.Data()|) && |source.reread| <= |waited|
    ensures r.Ok? ==> h.remote.content == Resent(old(h.remote.content), source.Data(), source.reread)
    ensures h.remote.failed >= old(h.remote.failed) && (h.remote.failed == old(h.remote.failed) ==> r.Ok?)
    ensures h.remote.putOff >= old(h.remote.putOff)
  {
    hide Resent, Overlay;
    var moved := acked;
    ghost var data := source.Data();
    ResentNothing(h.remote.content, data);
    assert waited[0..] == waited;
    for k := 0 to |waited|
      invariant h.Valid() && !h.checkpoint && source.Valid()
      invariant Asked(source.reread) == waited[..k] && Bounded(source.reread, |data|)
      invariant h.remote.content == Resent(old(h.remote.content), data, source.reread)
      invariant moved + Lengths(waited[k..]) == |data|
      invariant h.remote.failed >= old(h.remote.failed) && h.remote.putOff >= old(h.remote.putOff)
    {
      var s := waited[k];
      assert waited[k..][0] == s && waited[k..][1..] == waited[k + 1..];
      ghost var before := source.reread;
      var piece := source.Reread(s);
      assert piece == Stretch(data, 0, Span(s.start, |piece|));
      ResentStep(old(h.remote.content), data, before, s, |piece|);
      var w := h.Write(piece, s.start);
      if w.Err? { return Err(Raised); }
      moved := moved + s.length;
    }
    r := Ok(moved);
  }

  lemma ResentNothing(content: seq<byte>, data: seq<byte>)
    ensures Resent(content, data, []) == content
  {
  }

  /**
    An upload that returns reports exactly as many bytes as the source held from where
    it stood, and has left them at the destination - if and only if whatever its
    re-reads missed is zeros below the end. A re-read that is whole misses nothing. Each
    piece was acknowledged or sent again, and a plane declined before the first piece
    was asked for loses none of them to the serial path. From a source that can seek it
    raises only if some request fails, whatever is told to wait.
   */
  method Upload(h: Handle, source: Source, pieces: seq<seq<byte>>, depth: nat, seekable: bool)
    returns (r: Result<nat, Failure>)
    requires h.Valid() && !h.checkpoint && !h.append && h.remote.content == [] && depth > 0
    requires source.Valid() && source.reread == [] && Flatten(pieces) == source.Data()
    modifies h`turn, h`dataPaths, h`multistream, h`sizeHint, h`statKnown, h.remote, source
    ensures r.Ok? ==> r.value == |source.Data()|
    ensures r.Ok? ==> (h.remote.content == source.Data() <==> Unmissed(source.Data(), source.reread))
    ensures !seekable ==> source.reread == []
    ensures h.remote.failed >= old(h.remote.failed)
    ensures h.remote.failed == old(h.remote.failed) && Small(pieces, h.chunkSize) && seekable ==> r.Ok?
    ensures h.remote.failed == old(h.remote.failed) && Small(pieces, h.chunkSize) ==>
              (h.remote.putOff == old(h.remote.putOff) ==> r.Ok? && source.reread == [])
  {
    hide Flatten, Unmissed, Overlay;
    if h.WritesOnPlane() {
      var s, waited, taken, stored := WriteChunks(h.remote, pieces, 0, h.chunkSize, depth, seekable);
      if s.Acked? {
        ghost var content := h.remote.content;
        r := Resend(h, source, waited, s.count);
        if r.Ok? { ResentExactly(content, source.Data(), stored, source.reread, s.count); }
        return;
      }
      if s.Failed? || taken > 0 { return Err(Raised); }
    }
    r := Checkpoint.StreamSerially(h, pieces, 0);
    WholeUnmissed(source.Data(), source.reread);
    OverlayNothing(source.Data());
  }

  /** When every re-read was whole nothing is missed. */
  lemma WholeUnmissed(data: seq<byte>, again: seq<(Span, nat)>)
    requires forall i | 0 <= i < |again| :: again[i].1 == again[i].0.length
    ensures Unmissed(data, again)
  {
  }

  lemma OverlayNothing(data: seq<byte>)
    ensures Overlay([], 0, data) == data
  {
  }
}
