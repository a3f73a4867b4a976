/** Checkpoints: transactional writes, whatever mix of operations the block makes. */
module Checkpoint {
  import opened Wrappers
  import opened Bytes
  import opened Batching
  import opened Remote
  import Pipeline
  import opened Writing
  import VW = VectorWrite

  datatype Op =
    | Write(at: nat, data: seq<byte>)
    | Stream(at: nat, pieces: seq<seq<byte>>)
    | PgWrite(at: nat, data: seq<byte>)
    | Truncate(size: nat)
    | WriteV(chunks: seq<VW.Chunk>)
    | Clone

  datatype Verdict = Accepted | Refused | Failed

  /** What an operation does to a file when it is sent directly. */
  function Meaning(file: seq<byte>, op: Op): seq<byte>
  {
    match op
    case Write(at, data) => Overlay(file, at, data)
    case Stream(at, pieces) => Overlay(file, at, Flatten(pieces))
    case PgWrite(at, data) => Overlay(file, at, data)
    case Truncate(size) => Resized(file, size)
    case WriteV(chunks) => VW.ApplyAll(file, chunks)
    case Clone => file
  }

  function MeaningAll(file: seq<byte>, ops: seq<Op>): seq<byte>
  {
    if ops == [] then file else Meaning(MeaningAll(file, ops[..|ops| - 1]), ops[|ops| - 1])
  }

  /** The operations that went through. */
  function Taken(ops: seq<Op>, verdicts: seq<Verdict>): seq<Op>
    requires |ops| == |verdicts|
  {
    if ops == [] then []
    else
      var n := |ops| - 1;
      Taken(ops[..n], verdicts[..n]) + (if verdicts[n].Accepted? then [ops[n]] else [])
  }

  lemma TakenOneMore(file: seq<byte>, ops: seq<Op>, verdicts: seq<Verdict>, op: Op, v: Verdict)
    requires |ops| == |verdicts|
    ensures MeaningAll(file, Taken(ops + [op], verdicts + [v])) ==
            var before := MeaningAll(file, Taken(ops, verdicts));
            if v.Accepted? then Meaning(before, op) else before
  {
    assert (ops + [op])[..|ops|] == ops && (verdicts + [v])[..|ops|] == verdicts;
    var before := Taken(ops, verdicts);
    assert (before + [op])[..|before|] == before && before + [] == before;
  }

  // -- what a failure leaves ----------------------------------------------

  /** What may be in the file after an operation has failed part of the way. */
  ghost predicate Remains(before: seq<byte>, after: seq<byte>, op: Op)
  {
    match op
    case Write(at, data) => Partly(before, after, at, data)
    case Stream(at, pieces) => Partly(before, after, at, Flatten(pieces))
    case PgWrite(at, data) => Spared(before, after, at, |data|)
    case Truncate(size) => after == before || after == Resized(before, size)
    case WriteV(_) => after == before
    case Clone => after == before
  }

  /** Operations one after another, each with what came of it, turn `file` into `after`. */
  ghost predicate Came(file: seq<byte>, ops: seq<Op>, verdicts: seq<Verdict>, after: seq<byte>)
    requires |ops| == |verdicts|
    decreases |ops|
  {
    if ops == [] then after == file
    else
      var n := |ops| - 1;
      exists mid :: Came(file, ops[..n], verdicts[..n], mid) && Came1(mid, ops[n], verdicts[n], after)
  }

  ghost predicate Came1(before: seq<byte>, op: Op, v: Verdict, after: seq<byte>)
  {
    match v
    case Accepted => after == Meaning(before, op)
    case Refused => after == before
    case Failed => Remains(before, after, op)
  }

  ghost predicate NoneFailed(verdicts: seq<Verdict>) { forall i | 0 <= i < |verdicts| :: !verdicts[i].Failed? }

  lemma CameMore(file: seq<byte>, ops: seq<Op>, verdicts: seq<Verdict>, mid: seq<byte>, op: Op, v: Verdict,
                 after: seq<byte>)
    requires |ops| == |verdicts| && Came(file, ops, verdicts, mid) && Came1(mid, op, v, after)
    ensures Came(file, ops + [op], verdicts + [v], after)
  {
    assert (ops + [op])[..|ops|] == ops && (verdicts + [v])[..|ops|] == verdicts;
    assert Came(file, (ops + [op])[..|ops|], (verdicts + [v])[..|ops|], mid);
  }

  /** A failure of this operation cannot show: carried out it would change nothing, or it fails without effect. */
  ghost predicate CannotShow(before: seq<byte>, op: Op)
  {
    match op
    case Write(_, _) => Meaning(before, op) == before
    case Stream(_, _) => Meaning(before, op) == before
    case PgWrite(_, data) => data == []
    case Truncate(size) => size == |before|
    case WriteV(_) => true
    case Clone => true
  }

  lemma PartlyShows(before: seq<byte>, at: nat, data: seq<byte>)
    ensures (forall after | Partly(before, after, at, data) :: after == before) <==> Overlay(before, at, data) == before
  {
    PrefixPartly(before, at, data, |data|);
    assert data[..|data|] == data;
    if Overlay(before, at, data) == before {
      forall after | Partly(before, after, at, data) ensures after == before {
        PartlyOfNothing(before, after, at, data);
      }
    }
  }

  lemma PartlyOfNothing(before: seq<byte>, after: seq<byte>, at: nat, data: seq<byte>)
    requires Partly(before, after, at, data) && Overlay(before, at, data) == before
    ensures after == before
  {
    assert forall i | at <= i < at + |data| :: before[i] == data[i - at];
  }

  lemma SparedShows(before: seq<byte>, at: nat, data: seq<byte>)
    ensures (forall after | Spared(before, after, at, |data|) :: after == before) <==> data == []
  {
    if data != [] {
      var whole := Overlay(before, at, data);
      var other := whole[at := if whole[at] == 0 then 1 else 0];
      assert Spared(before, whole, at, |data|) && Spared(before, other, at, |data|);
      assert whole[at] != other[at];
    }
  }

  lemma RemainsShows(before: seq<byte>, op: Op)
    ensures (forall after | Remains(before, after, op) :: after == before) <==> CannotShow(before, op)
  {
    hide Partly, Spared, Overlay, Flatten;
    match op
    case Write(at, data) =>
      PartlyShows(before, at, data);
      assert forall after :: Remains(before, after, op) <==> Partly(before, after, at, data);
    case Stream(at, pieces) =>
      PartlyShows(before, at, Flatten(pieces));
      assert forall after :: Remains(before, after, op) <==> Partly(before, after, at, Flatten(pieces));
    case PgWrite(at, data) =>
      SparedShows(before, at, data);
      assert forall after :: Remains(before, after, op) <==> Spared(before, after, at, |data|);
    case Truncate(size) =>
      assert Remains(before, Resized(before, size), op);
      if size == |before| { assert Resized(before, size) == before; }
    case _ =>
  }

  /** A failure may leave nothing, so the accepted operations' result is always among what may come. */
  lemma {:induction false} CameTaken(file: seq<byte>, ops: seq<Op>, verdicts: seq<Verdict>)
    requires |ops| == |verdicts|
    ensures Came(file, ops, verdicts, MeaningAll(file, Taken(ops, verdicts)))
    decreases |ops|
  {
    if ops != [] {
      var n := |ops| - 1;
      var first, firstVerdicts := ops[..n], verdicts[..n];
      assert first + [ops[n]] == ops && firstVerdicts + [verdicts[n]] == verdicts;
      var mid := MeaningAll(file, Taken(first, firstVerdicts));
      RemainsNothing(mid, ops[n]);
      hide Meaning, MeaningAll, Taken, Remains, Came;
      CameTaken(file, first, firstVerdicts);
      TakenOneMore(file, first, firstVerdicts, ops[n], verdicts[n]);
      CameMore(file, first, firstVerdicts, mid, ops[n], verdicts[n], MeaningAll(file, Taken(ops, verdicts)));
    }
  }

  lemma RemainsNothing(before: seq<byte>, op: Op)
    ensures Remains(before, before, op)
  {
  }

  /** Operation `i`, if it failed, cannot show. */
  ghost predicate Hidden(file: seq<byte>, ops: seq<Op>, verdicts: seq<Verdict>, i: nat)
    requires |ops| == |verdicts| && i < |ops|
  {
    verdicts[i].Failed? ==> CannotShow(MeaningAll(file, Taken(ops[..i], verdicts[..i])), ops[i])
  }

  ghost predicate AllHidden(file: seq<byte>, ops: seq<Op>, verdicts: seq<Verdict>)
    requires |ops| == |verdicts|
  {
    forall i: nat | i < |ops| :: Hidden(file, ops, verdicts, i)
  }

  /** After the first `n` operations, whatever may have come of them is what the accepted ones make. */
  ghost predicate Right(file: seq<byte>, ops: seq<Op>, verdicts: seq<Verdict>, n: nat)
    requires |ops| == |verdicts| && n <= |ops|
  {
    forall after | Came(file, ops[..n], verdicts[..n], after) ::
      after == MeaningAll(file, Taken(ops[..n], verdicts[..n]))
  }

  ghost predicate AllRight(file: seq<byte>, ops: seq<Op>, verdicts: seq<Verdict>)
    requires |ops| == |verdicts|
  {
    forall n: nat | n <= |ops| :: Right(file, ops, verdicts, n)
  }

  lemma PrefixOne<T>(s: seq<T>, n: nat)
    requires n < |s|
    ensures s[..n + 1] == s[..n] + [s[n]] && s[..n + 1][..n] == s[..n]
  {
  }

  /** One operation more: right before it, it is right after it if and only if its failure cannot show. */
  lemma RightOneMore(file: seq<byte>, ops: seq<Op>, verdicts: seq<Verdict>, n: nat)
    requires |ops| == |verdicts| && n < |ops| && Right(file, ops, verdicts, n)
    ensures Right(file, ops, verdicts, n + 1) <==> Hidden(file, ops, verdicts, n)
  {
    var first, vs := ops[..n], verdicts[..n];
    var before := MeaningAll(file, Taken(first, vs));
    PrefixOne(ops, n);
    PrefixOne(verdicts, n);
    hide MeaningAll, Taken, Meaning, Remains, CannotShow;
    TakenOneMore(file, first, vs, ops[n], verdicts[n]);
    CameTaken(file, first, vs);
    RemainsShows(before, ops[n]);
    var all, more := ops[..n + 1], verdicts[..n + 1];
    forall after ensures Came(file, all, more, after) <==> Came1(before, ops[n], verdicts[n], after) {
      CameLast(file, first, vs, ops[n], verdicts[n], before, after);
    }
    if verdicts[n].Failed? {
      assert MeaningAll(file, Taken(all, more)) == before;
      if CannotShow(before, ops[n]) {
        assert forall after | Came(file, all, more, after) :: after == before;
      } else {
        var after :| Remains(before, after, ops[n]) && after != before;
        assert Came(file, all, more, after);
      }
    }
  }

  lemma CameLast(file: seq<byte>, ops: seq<Op>, verdicts: seq<Verdict>, op: Op, v: Verdict, before: seq<byte>,
                 after: seq<byte>)
    requires |ops| == |verdicts| && Came(file, ops, verdicts, before)
    requires forall mid | Came(file, ops, verdicts, mid) :: mid == before
    ensures Came(file, ops + [op], verdicts + [v], after) <==> Came1(before, op, v, after)
  {
    var all, vs := ops + [op], verdicts + [v];
    assert all[..|ops|] == ops && vs[..|ops|] == verdicts;
    if Came(file, all, vs, after) {
      var mid :| Came(file, all[..|ops|], vs[..|ops|], mid) && Came1(mid, all[|ops|], vs[|ops|], after);
    }
    if Came1(before, op, v, after) { CameMore(file, ops, verdicts, before, op, v, after); }
  }

  lemma {:induction false} HiddenIsRight(file: seq<byte>, ops: seq<Op>, verdicts: seq<Verdict>, n: nat)
    requires |ops| == |verdicts| && n <= |ops| && AllHidden(file, ops, verdicts)
    ensures Right(file, ops, verdicts, n)
  {
    if n > 0 {
      HiddenIsRight(file, ops, verdicts, n - 1);
      RightOneMore(file, ops, verdicts, n - 1);
    }
  }

  /**
    A caller may catch failures and go on. However many there are and wherever they
    stand: the file is at every moment what the accepted operations make of it, whatever
    the failed ones left behind, if and only if no failure can show.
   */
  lemma CaughtFailures(file: seq<byte>, ops: seq<Op>, verdicts: seq<Verdict>)
    requires |ops| == |verdicts|
    ensures AllRight(file, ops, verdicts) <==> AllHidden(file, ops, verdicts)
  {
    hide Right, Hidden;
    if AllHidden(file, ops, verdicts) {
      forall n: nat | n <= |ops| ensures Right(file, ops, verdicts, n) { HiddenIsRight(file, ops, verdicts, n); }
    }
    if AllRight(file, ops, verdicts) {
      forall i: nat | i < |ops| ensures Hidden(file, ops, verdicts, i) {
        assert Right(file, ops, verdicts, i) && Right(file, ops, verdicts, i + 1);
        RightOneMore(file, ops, verdicts, i);
      }
    }
  }

  /** With no failure among them there is none to show. */
  lemma NoneFailedHidden(file: seq<byte>, ops: seq<Op>, verdicts: seq<Verdict>)
    requires |ops| == |verdicts| && NoneFailed(verdicts)
    ensures AllHidden(file, ops, verdicts)
  {
  }

  /** At the end of a block none of whose failures can show. */
  lemma HiddenIsTaken(file: seq<byte>, ops: seq<Op>, verdicts: seq<Verdict>, after: seq<byte>)
    requires |ops| == |verdicts| && Came(file, ops, verdicts, after) && AllHidden(file, ops, verdicts)
    ensures after == MeaningAll(file, Taken(ops, verdicts))
  {
    HiddenIsRight(file, ops, verdicts, |ops|);
    assert ops[..|ops|] == ops && verdicts[..|ops|] == verdicts;
  }

  /** The least of it: of a write in two chunks to an empty file the second fails, and the first is committed. */
  lemma FirstChunkStays()
    ensures var ops := [Write(0, [1, 2])];
            && Came([], ops, [Failed], [1]) && MeaningAll([], Taken(ops, [Failed])) == []
  {
    assert [1, 2][..1] == [1] && Overlay([], 0, [1]) == [1];
    PrefixPartly([], 0, [1, 2], 1);
    CameMore([], [], [], [], Write(0, [1, 2]), Failed, [1]);
    assert [] + [Write(0, [1, 2])] == [Write(0, [1, 2])] && [] + [Failed] == [Failed];
    TakenOneMore([], [], [], Write(0, [1, 2]), Failed);
  }

  /** And of a truncate that expires after it was sent: carried out, it empties a file that is then committed. */
  lemma ExpiredTruncateStays()
    ensures var ops := [Truncate(0)];
            && Came([1], ops, [Failed], []) && MeaningAll([1], Taken(ops, [Failed])) == [1]
            && !AllHidden([1], ops, [Failed])
  {
    assert Resized([1], 0) == [];
    CameMore([1], [], [], [1], Truncate(0), Failed, []);
    assert [] + [Truncate(0)] == [Truncate(0)] && [] + [Failed] == [Failed];
    TakenOneMore([1], [], [], Truncate(0), Failed);
    assert [Truncate(0)][..0] == [] && [Failed][..0] == [];
    assert !Hidden([1], [Truncate(0)], [Failed], 0);
  }

  // -- the operations -----------------------------------------------------

  /** Pieces one acknowledged write at a time, back to back: what a checkpoint always uses. */
  method StreamSerially(h: Handle, pieces: seq<seq<byte>>, offset: nat) returns (r: Result<nat, Failure>)
    requires h.Valid()
    modifies h`turn, h`dataPaths, h`multistream, h`sizeHint, h`statKnown, h.remote
    ensures h.Valid() && h.remote.journal == old(h.remote.journal)
    ensures r.Ok? ==> r.value == |Flatten(pieces)|
    ensures r.Ok? ==> Stored(h.append, old(h.remote.content), h.remote.content, offset, Flatten(pieces))
    ensures Kept(h.append, old(h.remote.content), h.remote.content, offset, Flatten(pieces))
    ensures h.remote.failed >= old(h.remote.failed) && (h.remote.failed == old(h.remote.failed) ==> r.Ok?)
    ensures h.remote.putOff >= old(h.remote.putOff)
  {
    hide Stored, Kept, Flatten;
    FlattenNothing<byte>();
    ghost var all := Flatten(pieces);
    var done := 0;
    assert pieces[..0] == [];
    NothingStored(h.append, h.remote.content, offset, all);
    for n := 0 to |pieces|
      invariant h.Valid() && h.remote.journal == old(h.remote.journal)
      invariant done == |Flatten(pieces[..n])| <= |all|
      invariant Stored(h.append, old(h.remote.content), h.remote.content, offset, all[..done])
      invariant Kept(h.append, old(h.remote.content), h.remote.content, offset, all)
      invariant h.remote.failed >= old(h.remote.failed) && h.remote.putOff >= old(h.remote.putOff)
    {
      Pipeline.NextPiece(pieces, n);
      ghost var mid := h.remote.content;
      var w := h.Write(pieces[n], offset + done);
      PieceKept(h.append, old(h.remote.content), mid, h.remote.content, offset, all, done, done + |pieces[n]|);
      if w.Err? { return Err(Raised); }
      done := done + w.value;
    }
    assert pieces[..|pieces|] == pieces && all[..done] == all;
    r := Ok(done);
  }

  /** What a server cannot undo, and the client will not send inside a checkpoint. */
  predicate Refuses(op: Op) { op.Clone? || (op.WriteV? && op.chunks != []) }

  /** One operation inside a checkpoint: the journal never changes, and what is refused does nothing. */
  method Perform(h: Handle, op: Op) returns (v: Verdict)
    requires h.Valid() && h.checkpoint
    modifies h`turn, h`dataPaths, h`multistream, h`sizeHint, h`statKnown, h.remote
    ensures h.Valid() && h.remote.journal == old(h.remote.journal)
    ensures !h.append ==> Came1(old(h.remote.content), op, v, h.remote.content)
    ensures v.Refused? ==> h.remote.content == old(h.remote.content)
    ensures v.Refused? <==> Refuses(op)
    ensures h.remote.failed >= old(h.remote.failed)
    ensures v.Failed? ==> h.remote.failed > old(h.remote.failed) || op.PgWrite?
  {
    match op {
      case Write(at, data) =>
        var r := h.Write(data, at);
        v := if r.Ok? then Accepted else Failed;
      case Stream(at, pieces) =>
        var r := StreamSerially(h, pieces, at);
        v := if r.Ok? then Accepted else Failed;
      case PgWrite(at, data) =>
        var r := h.PgWrite(data, at);
        v := if r.Ok? then Accepted else Failed;
      case Truncate(size) =>
        var r := h.Truncate(size);
        v := if r.Ok? then Accepted else Failed;
      case WriteV(chunks) =>
        var r := VW.WriteV(h, chunks);
        v := if r.Wrote? then Accepted else if r.Refused? then Refused else Failed;
      case Clone =>
        v := Refused;
    }
  }

  datatype Ending =
    | Committed   // the block ended and the server took the commit
    | Undone      // the block raised and the server took the rollback
    | NotBegun    // a checkpoint was open already, or the server would not begin one
    | Unsettled   // the commit or the rollback itself failed

  /** The block raises: after so many operations, if it gets that far. */
  predicate Raises(raises: Option<nat>, ops: seq<Op>) { raises.Some? && raises.value <= |ops| }

  /**
    A whole checkpoint around any operations. The block may raise at any moment, after
    `raises` of them - because of the last one's failure or refusal, or of anything
    else; and a caller may catch what an operation raises and go on. A block that raises
    is rolled back and never committed, one that does not is committed. Undone, the file
    is what it was at the beginning, whatever the block did. Committed, it is what the
    operations made of it one after another, and what the accepted ones alone make of it
    if no failure can show. Checkpoints do not nest.
   */
  method Block(h: Handle, ops: seq<Op>, raises: Option<nat>) returns (end: Ending, verdicts: seq<Verdict>)
    requires h.Valid()
    modifies h, h.remote
    ensures old(h.checkpoint) ==> end == NotBegun
    ensures end == NotBegun ==> old(h.checkpoint) || h.remote.failed > old(h.remote.failed)
    ensures end == NotBegun ==> h.remote.content == old(h.remote.content) && h.checkpoint == old(h.checkpoint)
    ensures end != NotBegun ==> !h.checkpoint && |verdicts| == if Raises(raises, ops) then raises.value else |ops|
    ensures end == Undone ==> Raises(raises, ops) && h.remote.content == old(h.remote.content)
    ensures end == Committed ==> !Raises(raises, ops)
    ensures end == Unsettled ==> h.remote.failed > old(h.remote.failed)
    ensures |verdicts| <= |ops|
    ensures end == Committed && !h.append ==>
              && Came(old(h.remote.content), ops, verdicts, h.remote.content)
              && (AllHidden(old(h.remote.content), ops, verdicts) ==>
                    h.remote.content == MeaningAll(old(h.remote.content), Taken(ops, verdicts)))
    ensures forall i | 0 <= i < |verdicts| :: verdicts[i].Refused? <==> Refuses(ops[i])
    ensures h.remote.failed == old(h.remote.failed) ==>
              forall i | 0 <= i < |verdicts| :: verdicts[i].Failed? ==> ops[i].PgWrite?
    ensures !end.Unsettled? ==> h.Valid()
  {
    hide Came, Came1, Meaning, Taken, AllHidden;
    verdicts := [];
    if h.checkpoint { return NotBegun, []; }
    var begun := h.remote.Begin();
    if !begun { return NotBegun, []; }
    h.checkpoint := true;
    ghost var start := old(h.remote.content);
    CameNothing(start);
    assert ops[..0] == [];
    while |verdicts| < |ops| && raises != Some(|verdicts|)
      invariant |verdicts| <= |ops| && (raises.Some? ==> |verdicts| <= raises.value)
      invariant h.Valid() && h.checkpoint && h.remote.journal == Some(start)
      invariant !h.append ==> Came(start, ops[..|verdicts|], verdicts, h.remote.content)
      invariant forall i | 0 <= i < |verdicts| :: verdicts[i].Refused? <==> Refuses(ops[i])
      invariant h.remote.failed >= old(h.remote.failed)
      invariant h.remote.failed == old(h.remote.failed) ==>
                  forall i | 0 <= i < |verdicts| :: verdicts[i].Failed? ==> ops[i].PgWrite?
      decreases |ops| - |verdicts|
    {
      var n := |verdicts|;
      ghost var mid := h.remote.content;
      var v := Perform(h, ops[n]);
      if !h.append { CameMore(start, ops[..n], verdicts, mid, ops[n], v, h.remote.content); }
      assert ops[..n + 1] == ops[..n] + [ops[n]];
      verdicts := verdicts + [v];
    }
    h.checkpoint := false;
    if raises == Some(|verdicts|) {
      var ok := h.remote.Rollback();
      h.statKnown := false;
      end := if ok then Undone else Unsettled;
    } else {
      assert ops[..|ops|] == ops;
      if !h.append && AllHidden(start, ops, verdicts) { HiddenIsTaken(start, ops, verdicts, h.remote.content); }
      var ok := h.remote.Commit();
      end := if ok then Committed else Unsettled;
    }
  }

  lemma CameNothing(file: seq<byte>)
    ensures Came(file, [], [], file)
  {
  }
}
