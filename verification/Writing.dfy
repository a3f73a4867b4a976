/**
  Writing an open handle: the bulk plane, then a bound data path, then the control
  link, each falling back to the next; and checkpoints, which journal every write.
 */
module Writing {
  import opened Wrappers
  import opened Bytes
  import opened Batching
  import opened Remote
  import opened Pipeline

  datatype Failure = Raised

  /** What came of a stretch of writes on the bulk plane. */
  datatype Plane = Landed | Declined | Broke

  /** One chunk of a transfer through the event path. */
  datatype Op = Put(at: nat, data: seq<byte>) | Get(at: nat, length: nat)

  /** A buffer in pieces of `size` bytes, the last one shorter. */
  function Chunked(view: seq<byte>, size: nat): (pieces: seq<seq<byte>>)
    requires size > 0
    ensures Flatten(pieces) == view && Small(pieces, size)
  {
    if |view| <= size then (assert Flatten([view]) == view + Flatten([view][1..]); [view])
    else
      assert view == view[..size] + view[size..];
      [view[..size]] + Chunked(view[size..], size)
  }

  class Handle {
    const remote: File
    const chunkSize: nat
    const bulkDepth: nat
    const bulk: bool
    const append: bool
    /** Whether the server has said it will not serve a request that arrives on a data path. */
    const disclaimsArrival: bool
    var checkpoint: bool
    /** The path bound by hand, or 0. */
    var pathid: nat
    /** The paths bound automatically. */
    var dataPaths: seq<nat>
    var turn: nat
    var multistream: bool
    var sizeHint: nat
    var statKnown: bool

    constructor (remote: File, chunkSize: nat, bulkDepth: nat, bulk: bool, disclaims: bool,
                 paths: seq<nat>)
      requires chunkSize > 0 && bulkDepth > 0 && remote.journal.None? && remote.Unsplit()
      ensures Valid() && !checkpoint && pathid == 0
      ensures this.remote == remote && append == remote.append
    {
      this.remote, append, this.chunkSize, this.bulkDepth := remote, remote.append, chunkSize, bulkDepth;
      this.bulk := bulk;
      disclaimsArrival, dataPaths, pathid := disclaims, paths, 0;
      checkpoint, turn, multistream, sizeHint, statKnown := false, 0, true, 0, false;
    }

    /** The client's idea of an open checkpoint is the server's, and no write ever went out split. */
    ghost predicate Valid()
      reads this, remote
    {
      && chunkSize > 0 && bulkDepth > 0 && (checkpoint <==> remote.journal.Some?)
      && append == remote.append && remote.Unsplit()
    }

    /** Bind a path by hand, unless there is one. */
    method BindDataPath() returns (bound: nat)
      requires Valid()
      modifies this`pathid
      ensures Valid() && bound == pathid && (old(pathid) != 0 ==> pathid == old(pathid))
    {
      if pathid == 0 {
        var given: int := *;
        pathid := Max(given, 0);
      }
      bound := pathid;
    }

    predicate PathsIdle()
      reads this
    {
      dataPaths == [] || !multistream || disclaimsArrival
    }

    /** Not inside a checkpoint, not on a handle the server places writes for, not beside served paths. */
    predicate WritesOnPlane()
      reads this
    {
      bulk && !checkpoint && !append && PathsIdle()
    }

    /** The next data path, round robin, or 0 for the control link. */
    method NextPath() returns (pathid: nat)
      modifies this`turn
      ensures !multistream || dataPaths == [] ==> pathid == 0
      ensures pathid == 0 || pathid in dataPaths
    {
      if !multistream || dataPaths == [] { return 0; }
      pathid := dataPaths[turn % |dataPaths|];
      turn := turn + 1;
    }

    /** The path named by a request that does not arrive on one: the manual one for a read, none for a write. */
    function SplitPath(write: bool): nat
      reads this
    {
      if write then 0 else pathid
    }

    method Submit(op: Op, arrive: bool, named: nat) returns (ok: bool, got: seq<byte>)
      requires remote.journal.None? || op.Get?
      modifies remote
      ensures remote.journal == old(remote.journal)
      ensures remote.sent == old(remote.sent) + [Request(op.Put?, arrive, named)]
      ensures remote.failed == old(remote.failed) + (if ok then 0 else 1) && remote.putOff == old(remote.putOff)
      ensures op.Put? ==> Kept(remote.append, old(remote.content), remote.content, op.at, op.data)
      ensures op.Put? && ok ==> Stored(remote.append, old(remote.content), remote.content, op.at, op.data)
      ensures op.Get? ==> remote.content == old(remote.content)
      ensures op.Get? && ok ==> got == Window(remote.content, op.at, op.length)
    {
      got := [];
      match op {
        case Put(at, data) => ok := remote.Store(arrive, named, at, data, false);
        case Get(at, length) => ok, got := remote.Fetch(arrive, named, at, length);
      }
    }

    /**
      One chunk, read or written: whole down a data path if the server takes it there,
      else split for a read, else on the control link. A write is never split, whatever
      paths are bound; with no automatic path, a read goes out naming the manual one.
     */
    method Bulk(op: Op) returns (ok: bool, got: seq<byte>)
      requires Valid() && (op.Put? ==> !checkpoint)
      modifies this`turn, this`dataPaths, this`multistream, remote
      ensures Valid() && remote.journal == old(remote.journal)
      ensures op.Put? ==> Kept(remote.append, old(remote.content), remote.content, op.at, op.data)
      ensures op.Put? && ok ==> Stored(remote.append, old(remote.content), remote.content, op.at, op.data)
      ensures op.Get? ==> remote.content == old(remote.content)
      ensures op.Get? && ok ==> got == Window(remote.content, op.at, op.length)
      ensures op.Get? && (checkpoint || !old(multistream) || old(dataPaths) == []) ==>
                remote.sent == old(remote.sent) + [Request(false, false, pathid)]
      ensures remote.failed >= old(remote.failed) && (remote.failed == old(remote.failed) ==> ok)
      ensures remote.putOff == old(remote.putOff)
    {
      hide Kept, Stored, Window;
      var path := NextPath();
      if path == 0 || checkpoint {
        ok, got := Submit(op, false, SplitPath(op.Put?));
        return;
      }
      if !disclaimsArrival {
        ok, got := Submit(op, true, path);
        if ok { return; }
        // The server would not serve it there: that path is let go and another bound in its place.
        var bound: seq<nat> := *;
        dataPaths := bound;
        path := NextPath();
      }
      ghost var mid := remote.content;
      if op.Put? || path == 0 {
        ok, got := Submit(op, false, 0);
      } else {
        ok, got := Submit(op, false, path);
        if !ok {
          multistream := false;
          ok, got := Submit(op, false, 0);
        }
      }
      if op.Put? { PutAgain(append, old(remote.content), mid, remote.content, op.at, op.data); }
    }

    /** A chunk at a time: through the journal inside a checkpoint, over a data path or the control link outside. */
    method EventWrite(view: seq<byte>, offset: nat) returns (r: Result<nat, Failure>)
      requires Valid()
      modifies this`turn, this`dataPaths, this`multistream, this`sizeHint, this`statKnown, remote
      ensures Valid() && remote.journal == old(remote.journal)
      ensures r.Ok? ==> r.value == |view| && Stored(append, old(remote.content), remote.content, offset, view)
      ensures r.Ok? ==> sizeHint == Max(old(sizeHint), offset + |view|) && !statKnown
      ensures Kept(append, old(remote.content), remote.content, offset, view)
      ensures remote.failed >= old(remote.failed) && (remote.failed == old(remote.failed) ==> r.Ok?)
      ensures remote.putOff == old(remote.putOff)
    {
      hide Kept, Stored;
      var written := 0;
      NothingStored(append, remote.content, offset, view);
      while written < |view|
        invariant written <= |view|
        invariant Valid() && remote.journal == old(remote.journal)
        invariant Stored(append, old(remote.content), remote.content, offset, view[..written])
        invariant Kept(append, old(remote.content), remote.content, offset, view)
        invariant sizeHint == old(sizeHint)
        invariant remote.failed >= old(remote.failed) && remote.putOff == old(remote.putOff)
      {
        var stop := Min(|view|, written + chunkSize);
        var piece := view[written..stop];
        label Before:
        var ok;
        if checkpoint {
          ok := remote.Store(false, SplitPath(true), offset + written, piece, true);
        } else {
          var got;
          ok, got := Bulk(Put(offset + written, piece));
        }
        PieceKept(append, old(remote.content), old@Before(remote.content), remote.content, offset, view, written, stop);
        if !ok { return Err(Raised); }
        written := stop;
      }
      assert view[..written] == view;
      Invalidate(offset + written, false);
      r := Ok(written);
    }

    method Invalidate(highWater: nat, exact: bool)
      modifies this`sizeHint, this`statKnown
      ensures sizeHint == (if exact then highWater else Max(old(sizeHint), highWater)) && !statKnown
    {
      sizeHint := if exact then highWater else Max(sizeHint, highWater);
      statKnown := false;
    }

    /** The plane: chunks in flight together, any of which may have landed by the time it is declined or breaks. */
    method PlaneWrite(view: seq<byte>, offset: nat) returns (p: Plane)
      requires Valid() && !checkpoint && !append
      modifies remote
      ensures Valid() && remote.journal == old(remote.journal)
      ensures p.Landed? ==> remote.content == Overlay(old(remote.content), offset, view)
      ensures Partly(old(remote.content), remote.content, offset, view)
      ensures remote.failed >= old(remote.failed) && (remote.failed == old(remote.failed) ==> !p.Broke?)
      ensures remote.putOff >= old(remote.putOff)
      ensures remote.failed == old(remote.failed) && remote.putOff == old(remote.putOff) ==> p.Landed?
    {
      hide Partly, Overlay, Filled;
      var s, waited, _, stored := WriteChunks(remote, Chunked(view, chunkSize), offset, chunkSize, bulkDepth, false);
      if s.Acked? {
        assert forall q: nat :: !Holds([], q);
        FilledWhole(old(remote.content), remote.content, view, offset, stored);
      }
      p := if s.Acked? then Landed else if s.Unsupported? then Declined else Broke;
    }

    /**
      A write: whichever of the three ways carries it in the end, and whatever
      part of the ways tried before had landed, the file is as after one write. On a
      handle opened to append nothing that was there changes. It raises only if some
      request failed.
     */
    method Write(view: seq<byte>, offset: nat) returns (r: Result<nat, Failure>)
      requires Valid()
      modifies this`turn, this`dataPaths, this`multistream, this`sizeHint, this`statKnown, remote
      ensures Valid() && remote.journal == old(remote.journal)
      ensures r.Ok? ==> r.value == |view| && Stored(append, old(remote.content), remote.content, offset, view)
      ensures r.Ok? ==> sizeHint == Max(old(sizeHint), offset + |view|) && !statKnown
      ensures Kept(append, old(remote.content), remote.content, offset, view)
      ensures remote.failed >= old(remote.failed) && (remote.failed == old(remote.failed) ==> r.Ok?)
      ensures remote.putOff >= old(remote.putOff)
    {
      ghost var start := remote.content;
      NothingStored(append, start, offset, view);
      if view != [] && WritesOnPlane() {
        var p := PlaneWrite(view, offset);
        if p.Landed? {
          Invalidate(offset + |view|, false);
          return Ok(|view|);
        }
        if p.Broke? { return Err(Raised); }
      }
      ghost var mid := remote.content;
      r := EventWrite(view, offset);
      PutAgain(append, start, mid, remote.content, offset, view);
    }

    /**
      A page-checksummed write, on the control link and through the journal if there
      is one. A page that did not survive is sent again until it does, or the write
      fails: done, the file is as after one write, whatever was corrupted on the way.
     */
    method PgWrite(data: seq<byte>, offset: nat) returns (r: Result<nat, Failure>)
      requires Valid()
      modifies this`sizeHint, this`statKnown, remote
      ensures Valid() && remote.journal == old(remote.journal)
      ensures r.Ok? ==> r.value == |data| && Stored(append, old(remote.content), remote.content, offset, data)
      ensures r.Ok? && data != [] ==> sizeHint == Max(old(sizeHint), offset + |data|) && !statKnown
      ensures if append then old(remote.content) <= remote.content
              else Spared(old(remote.content), remote.content, offset, |data|)
      ensures remote.failed >= old(remote.failed) && remote.stray >= old(remote.stray)
      ensures |remote.sent| >= |old(remote.sent)|
      ensures r.Err? ==>
                || remote.failed > old(remote.failed) || remote.stray > old(remote.stray)
                || |remote.sent| >= |old(remote.sent)| + 4
    {
      if data == [] { return Ok(0); }
      hide Overlay, InPage;
      var ok, corrupt := remote.StorePages(SplitPath(true), offset, data, checkpoint);
      if !ok { return Err(Raised); }
      ghost var strays := remote.stray;
      var n := 0;
      assert corrupt[0..] == corrupt;
      while n < |corrupt|
        invariant n <= |corrupt| && Valid() && remote.journal == old(remote.journal) && sizeHint == old(sizeHint)
        invariant if append then old(remote.content) <= remote.content
                  else Spared(old(remote.content), remote.content, offset, |data|)
        invariant !append ==> Clean(remote.content, offset, data, corrupt[n..])
        invariant remote.failed >= old(remote.failed) && remote.stray >= strays >= old(remote.stray)
        invariant |remote.sent| >= |old(remote.sent)| + 1
        invariant strays == old(remote.stray) ==> forall c | c in corrupt :: offset <= c < offset + |data|
      {
        assert corrupt[n] in corrupt;
        var taken := PgRetry(data, offset, corrupt, n, old(remote.content));
        if !taken { return Err(Raised); }
        n := n + 1;
      }
      assert corrupt[n..] == [];
      if !append { CleanIsWhole(old(remote.content), remote.content, offset, data); }
      Invalidate(offset + |data|, false);
      r := Ok(|data|);
    }

    /** One page sent again until it survives; given up after three times, or when a request fails. */
    method PgRetry(data: seq<byte>, base: nat, corrupt: seq<int>, n: nat, ghost before: seq<byte>) returns (taken: bool)
      requires Valid() && data != [] && n < |corrupt|
      requires if append then before <= remote.content
               else Spared(before, remote.content, base, |data|) && Clean(remote.content, base, data, corrupt[n..])
      modifies remote
      ensures Valid() && remote.journal == old(remote.journal)
      ensures if append then before <= remote.content else Spared(before, remote.content, base, |data|)
      ensures taken && !append ==> Clean(remote.content, base, data, corrupt[n + 1..])
      ensures remote.failed >= old(remote.failed) && remote.stray >= old(remote.stray)
      ensures |remote.sent| >= |old(remote.sent)| + if taken then 1 else 0
      ensures !taken ==>
                || remote.failed > old(remote.failed) || !(base <= corrupt[n] < base + |data|)
                || |remote.sent| == |old(remote.sent)| + 3
    {
      hide Overlay, InPage, Spared, Clean;
      var at := corrupt[n];
      if !(base <= at < base + |data|) { return false; }
      var span := PageSpan(at, |data| - (at - base));
      var page := data[at - base..at - base + span];
      ghost var start := remote.content;
      SparedNone(start, at, span);
      for tries := 0 to 3
        invariant Valid() && remote.journal == old(remote.journal)
        invariant remote.failed == old(remote.failed) && remote.stray >= old(remote.stray)
        invariant |remote.sent| == |old(remote.sent)| + tries
        invariant if append then before <= remote.content
                  else Spared(start, remote.content, at, span) && Spared(before, remote.content, base, |data|)
      {
        ghost var mid := remote.content;
        var ok, again := remote.StorePages(SplitPath(true), at, page, checkpoint);
        if !append {
          SparedNests(start, mid, remote.content, at, span, at, span);
          SparedNests(before, mid, remote.content, base, |data|, at, span);
        }
        if !ok { return false; }
        if again == [] {
          if !append { PageSettled(start, remote.content, base, data, corrupt[n..], page); }
          assert corrupt[n..][1..] == corrupt[n + 1..];
          return true;
        }
      }
      taken := false;
    }

    /** A truncate that is not answered may have been carried out all the same. */
    method Truncate(size: nat) returns (r: Result<nat, Failure>)
      requires Valid()
      modifies this`sizeHint, this`statKnown, remote
      ensures Valid() && remote.journal == old(remote.journal)
      ensures r.Ok? ==> remote.content == Resized(old(remote.content), size)
      ensures remote.content == old(remote.content) || remote.content == Resized(old(remote.content), size)
      ensures r.Ok? ==> r.value == size && sizeHint == size && !statKnown
      ensures remote.failed >= old(remote.failed) && (remote.failed == old(remote.failed) ==> r.Ok?)
    {
      var ok := remote.Truncate(size, checkpoint);
      if !ok { return Err(Raised); }
      Invalidate(size, true);
      r := Ok(size);
    }
  }
}
