/** A remote file as its server keeps it: its content, and what a checkpoint would restore. */
module Remote {
  import opened Wrappers
  import opened Bytes

  /**
    A read or a write as it goes out: the path it names, 0 for none, and whether it
    travels down that path whole. If not, its header is on the control link, and a
    path it names carries only the bytes.
   */
  datatype Request = Request(write: bool, arrive: bool, pathid: nat)
  {
    predicate Split() { !arrive && pathid != 0 }
  }

  /**
    `after` is `before` with any part of `data` at `offset` landed, in any order
    and any number of times, and nothing else touched.
   */
  ghost predicate Partly(before: seq<byte>, after: seq<byte>, offset: nat, data: seq<byte>)
  {
    && |before| <= |after| <= (if data == [] then |before| else Max(|before|, offset + |data|))
    && (forall i | 0 <= i < |after| ::
          || after[i] == (if i < |before| then before[i] else 0)
          || (offset <= i < offset + |data| && after[i] == data[i - offset]))
  }

  /** Landing a stretch of the data again, or for the first time, stays within it. */
  lemma PartlyLands(before: seq<byte>, after: seq<byte>, offset: nat, data: seq<byte>, lo: nat, hi: nat)
    requires Partly(before, after, offset, data) && lo <= hi <= |data|
    ensures Partly(before, Overlay(after, offset + lo, data[lo..hi]), offset, data)
  {
    var stretch := data[lo..hi];
    var next := Overlay(after, offset + lo, stretch);
    forall i | 0 <= i < |next|
      ensures || next[i] == (if i < |before| then before[i] else 0)
              || (offset <= i < offset + |data| && next[i] == data[i - offset])
    {
      if offset + lo <= i < offset + hi { assert next[i] == stretch[i - offset - lo]; }
    }
  }

  /** A part of a part is a part. */
  lemma PartlyNests(before: seq<byte>, mid: seq<byte>, after: seq<byte>, offset: nat, data: seq<byte>, lo: nat, hi: nat)
    requires Partly(before, mid, offset, data) && lo <= hi <= |data|
    requires Partly(mid, after, offset + lo, data[lo..hi])
    ensures Partly(before, after, offset, data)
  {
    forall i | 0 <= i < |after|
      ensures || after[i] == (if i < |before| then before[i] else 0)
              || (offset <= i < offset + |data| && after[i] == data[i - offset])
    {
      if offset + lo <= i < offset + hi && after[i] == data[lo..hi][i - offset - lo] {
        assert after[i] == data[i - offset];
      }
    }
  }

  /** A prefix of the data, landed, is part of it. */
  lemma PrefixPartly(before: seq<byte>, offset: nat, data: seq<byte>, n: nat)
    requires n <= |data|
    ensures Partly(before, Overlay(before, offset, data[..n]), offset, data)
  {
    PartlyLands(before, before, offset, data, 0, n);
    assert data[0..n] == data[..n];
  }

  /** The next piece lands behind a prefix, wholly or in part. */
  lemma PieceLands(before: seq<byte>, mid: seq<byte>, after: seq<byte>, offset: nat, data: seq<byte>, lo: nat, hi: nat)
    requires lo <= hi <= |data| && mid == Overlay(before, offset, data[..lo])
    requires Partly(mid, after, offset + lo, data[lo..hi])
    ensures Partly(before, after, offset, data)
    ensures after == Overlay(mid, offset + lo, data[lo..hi]) ==> after == Overlay(before, offset, data[..hi])
  {
    PrefixPartly(before, offset, data, lo);
    PartlyNests(before, mid, after, offset, data, lo, hi);
    OverlayJoins(before, offset, data[..lo], data[lo..hi]);
    assert data[..lo] + data[lo..hi] == data[..hi];
  }

  /** Whatever part of earlier attempts landed, one whole write leaves what a single write would. */
  lemma PartlyAbsorbed(before: seq<byte>, after: seq<byte>, offset: nat, data: seq<byte>)
    requires Partly(before, after, offset, data)
    ensures Overlay(after, offset, data) == Overlay(before, offset, data)
  {
  }

  // -- where the server places the data -------------------------------------

  /** The data has been stored where it was meant for; on a file opened to append the server places it. */
  ghost predicate Stored(append: bool, before: seq<byte>, after: seq<byte>, at: nat, data: seq<byte>)
  {
    !append ==> after == Overlay(before, at, data)
  }

  /** Part of the data may have been; a file opened to append only grows. */
  ghost predicate Kept(append: bool, before: seq<byte>, after: seq<byte>, at: nat, data: seq<byte>)
  {
    if append then before <= after else Partly(before, after, at, data)
  }

  /** A write tried once more, after part of an earlier try has landed. */
  lemma PutAgain(append: bool, before: seq<byte>, mid: seq<byte>, after: seq<byte>, at: nat, data: seq<byte>)
    requires Kept(append, before, mid, at, data) && Kept(append, mid, after, at, data)
    ensures Kept(append, before, after, at, data)
    ensures Stored(append, mid, after, at, data) ==> Stored(append, before, after, at, data)
  {
    if !append {
      PartlyAbsorbed(before, mid, at, data);
      assert data[0..|data|] == data;
      PartlyNests(before, mid, after, at, data, 0, |data|);
    }
  }

  lemma NothingStored(append: bool, content: seq<byte>, at: nat, data: seq<byte>)
    ensures Stored(append, content, content, at, data[..0]) && Kept(append, content, content, at, data)
  {
    if !append { PrefixPartly(content, at, data, 0); }
  }

  /** The next piece of some data is stored behind what has been, wholly or in part. */
  lemma PieceKept(append: bool, before: seq<byte>, mid: seq<byte>, after: seq<byte>, at: nat, data: seq<byte>, lo: nat,
                  hi: nat)
    requires lo <= hi <= |data|
    requires Stored(append, before, mid, at, data[..lo]) && Kept(append, before, mid, at, data)
    requires Kept(append, mid, after, at + lo, data[lo..hi])
    ensures Kept(append, before, after, at, data)
    ensures Stored(append, mid, after, at + lo, data[lo..hi]) ==> Stored(append, before, after, at, data[..hi])
  {
    if !append { PieceLands(before, mid, after, at, data, lo, hi); }
  }

  /** Content cut or zero-filled to a size. */
  function Resized(file: seq<byte>, size: nat): (after: seq<byte>)
    ensures |after| == size
    ensures forall i | 0 <= i < size :: after[i] == if i < |file| then file[i] else 0
  {
    seq(size, i requires i >= 0 => if i < |file| then file[i] else 0)
  }

  // -- pages ----------------------------------------------------------------

  const PAGE: nat := 4096

  /** How much of the page at a file offset is in the next `remaining` bytes. */
  function PageSpan(offset: nat, remaining: nat): (n: nat)
    ensures n <= remaining && (remaining > 0 ==> n > 0)
  {
    Min(remaining, PAGE - offset % PAGE)
  }

  /** Byte `p` is in a page of a write of `length` bytes at `at` that was found corrupt. */
  ghost predicate InPage(at: nat, length: nat, corrupt: seq<int>, p: nat)
  {
    exists k | 0 <= k < |corrupt| ::
      at <= corrupt[k] < at + length && corrupt[k] <= p < corrupt[k] + PageSpan(corrupt[k], at + length - corrupt[k])
  }

  /** Every byte of the data is in place, but for the corrupt pages. */
  ghost predicate Clean(content: seq<byte>, at: nat, data: seq<byte>, corrupt: seq<int>)
  {
    && at + |data| <= |content|
    && forall p | at <= p < at + |data| :: content[p] == data[p - at] || InPage(at, |data|, corrupt, p)
  }

  /** Only bytes of the stretch `at`, `length` have changed, a gap below it filled with zeros. */
  ghost predicate Spared(before: seq<byte>, after: seq<byte>, at: nat, length: nat)
  {
    && |before| <= |after| <= (if length == 0 then |before| else Max(|before|, at + length))
    && forall i | 0 <= i < |after| && !(at <= i < at + length) :: after[i] == if i < |before| then before[i] else 0
  }

  lemma SparedNone(content: seq<byte>, at: nat, length: nat)
    ensures Spared(content, content, at, length)
  {
  }

  lemma SparedNests(before: seq<byte>, mid: seq<byte>, after: seq<byte>, at: nat, length: nat, lo: nat, n: nat)
    requires Spared(before, mid, at, length) && Spared(mid, after, lo, n) && at <= lo && lo + n <= at + length
    ensures Spared(before, after, at, length)
  {
  }

  /** The first corrupt page, sent again and found in order, leaves only the others to mend. */
  lemma PageSettled(before: seq<byte>, after: seq<byte>, at: nat, data: seq<byte>, corrupt: seq<int>, page: seq<byte>)
    requires corrupt != [] && at <= corrupt[0] < at + |data| && Clean(before, at, data, corrupt)
    requires var span := PageSpan(corrupt[0], |data| - (corrupt[0] - at));
             page == data[corrupt[0] - at..corrupt[0] - at + span]
    requires Spared(before, after, corrupt[0], |page|) && Clean(after, corrupt[0], page, [])
    ensures Clean(after, at, data, corrupt[1..])
  {
    forall p | at <= p < at + |data| ensures after[p] == data[p - at] || InPage(at, |data|, corrupt[1..], p) {
      if corrupt[0] <= p < corrupt[0] + |page| {
        assert !InPage(corrupt[0], |page|, [], p);
      } else if InPage(at, |data|, corrupt, p) {
        var k :| 0 <= k < |corrupt| && at <= corrupt[k] < at + |data|
                 && corrupt[k] <= p < corrupt[k] + PageSpan(corrupt[k], at + |data| - corrupt[k]);
        assert corrupt[1..][k - 1] == corrupt[k];
      }
    }
  }

  /** With every page in order the write is whole. */
  lemma CleanIsWhole(before: seq<byte>, after: seq<byte>, at: nat, data: seq<byte>)
    requires Spared(before, after, at, |data|) && data != [] && Clean(after, at, data, [])
    ensures after == Overlay(before, at, data)
  {
    assert forall p: nat :: !InPage(at, |data|, [], p);
  }

  class File {
    /** Opened to append: the server puts what is written behind what there is. */
    const append: bool
    var content: seq<byte>
    /** While a checkpoint is open: what its rollback restores. */
    var journal: Option<seq<byte>>
    /** Every read and write that names a path or could. */
    ghost var sent: seq<Request>
    /** How many requests were refused or left unanswered. */
    ghost var failed: nat
    /** How many times the plane was busy, or a write on it told to wait. */
    ghost var putOff: nat
    /** How many answers named a corrupt page that was not in the write. */
    ghost var stray: nat

    constructor (initial: seq<byte>, append: bool)
      ensures content == initial && journal == None && sent == [] && this.append == append
    {
      content, journal, sent, this.append := initial, None, [], append;
      failed, putOff, stray := 0, 0, 0;
    }

    /** No write has gone out split across two links. */
    ghost predicate Unsplit()
      reads this
    {
      forall i | 0 <= i < |sent| :: sent[i].write ==> !sent[i].Split()
    }

    /**
      One write request. Answered, it is stored; otherwise any part of it may have
      been. A split one is answered on the path, where nobody listens. Sent as part
      of the checkpoint a write leaves the journal alone; sent around it, it is not
      undone.
     */
    method Store(arrive: bool, pathid: nat, at: nat, data: seq<byte>, journaled: bool) returns (ok: bool)
      requires journaled ==> journal.Some?
      modifies this
      ensures sent == old(sent) + [Request(true, arrive, pathid)]
      ensures Request(true, arrive, pathid).Split() ==> !ok
      ensures failed == old(failed) + if ok then 0 else 1
      ensures stray == old(stray) && putOff == old(putOff)
      ensures ok ==> Stored(append, old(content), content, at, data)
      ensures Kept(append, old(content), content, at, data)
      ensures journaled || old(journal).None? ==> journal == old(journal)
      ensures !journaled && old(journal).Some? && ok && !append ==>
                journal == Some(Overlay(old(journal).value, at, data))
    {
      ok := *;
      if !arrive && pathid != 0 { ok := false; }
      var lo: int, hi: int := *, *;
      if ok || !(0 <= lo <= hi <= |data|) { lo, hi := 0, if ok then |data| else 0; }
      PartlyLands(content, content, at, data, lo, hi);
      assert ok ==> data[lo..hi] == data;
      var place := if append then |content| else at + lo;
      content := Overlay(content, place, data[lo..hi]);
      if !journaled && journal.Some? { journal := Some(Overlay(journal.value, place, data[lo..hi])); }
      sent := sent + [Request(true, arrive, pathid)];
      if !ok { failed := failed + 1; }
    }

    /** One read request, whichever link carries its answer. */
    method Fetch(arrive: bool, pathid: nat, at: nat, length: nat) returns (ok: bool, data: seq<byte>)
      modifies this`sent, this`failed
      ensures sent == old(sent) + [Request(false, arrive, pathid)]
      ensures failed == old(failed) + if ok then 0 else 1
      ensures ok ==> data == Window(content, at, length)
    {
      ok := *;
      data := if ok then Window(content, at, length) else [];
      sent := sent + [Request(false, arrive, pathid)];
      if !ok { failed := failed + 1; }
    }

    /** The connection is busy, or a write is told to wait: nothing is stored. */
    method PutOff()
      modifies this`putOff
      ensures putOff == old(putOff) + 1
    {
      putOff := putOff + 1;
    }

    /**
      One page-checksummed write. It is stored whatever its checksums say; the
      answer names the offsets of the pages that did not survive, and perhaps others.
     */
    method StorePages(pathid: nat, at: nat, data: seq<byte>, journaled: bool) returns (ok: bool, corrupt: seq<int>)
      requires journaled ==> journal.Some?
      modifies this
      ensures sent == old(sent) + [Request(true, false, pathid)]
      ensures Request(true, false, pathid).Split() ==> !ok
      ensures failed == old(failed) + if ok then 0 else 1
      ensures stray == old(stray) + if exists c | c in corrupt :: !(at <= c < at + |data|) then 1 else 0
      ensures if append then old(content) <= content else Spared(old(content), content, at, |data|)
      ensures ok && data != [] && !append ==> Clean(content, at, data, corrupt)
      ensures journaled || old(journal).None? ==> journal == old(journal)
    {
      var first: int, wrong: byte := *, *;
      ok := *;
      if pathid != 0 { ok := false; }
      sent := sent + [Request(true, false, pathid)];
      corrupt := [];
      var place := if append then |content| else at;
      if !journaled && journal.Some? { journal := Some(Overlay(journal.value, place, data)); }
      content := Overlay(content, place, data);
      if !append && at <= first < at + |data| {
        corrupt := [first];
        assert corrupt[0] == first && InPage(at, |data|, corrupt, first);
        content := content[first := wrong];
      }
      if !ok { failed := failed + 1; }
    }

    /** A truncate that is not answered may have been carried out. */
    method Truncate(size: nat, journaled: bool) returns (ok: bool)
      requires journaled ==> journal.Some?
      modifies this`content, this`journal, this`failed
      ensures failed == old(failed) + if ok then 0 else 1
      ensures ok ==> content == Resized(old(content), size)
      ensures content == old(content) || content == Resized(old(content), size)
      ensures journaled || old(journal).None? ==> journal == old(journal)
      ensures !journaled && old(journal).Some? && ok ==> journal == Some(Resized(old(journal).value, size))
    {
      ok := *;
      var done: bool := *;
      if ok || done {
        content := Resized(content, size);
        if !journaled && journal.Some? { journal := Some(Resized(journal.value, size)); }
      }
      if !ok { failed := failed + 1; }
    }

    method Begin() returns (ok: bool)
      requires journal.None?
      modifies this`journal, this`failed
      ensures failed == old(failed) + if ok then 0 else 1
      ensures journal == if ok then Some(content) else None
    {
      ok := *;
      if ok { journal := Some(content); }
      if !ok { failed := failed + 1; }
    }

    method Commit() returns (ok: bool)
      requires journal.Some?
      modifies this`content, this`journal, this`failed
      ensures failed == old(failed) + if ok then 0 else 1
      ensures ok ==> content == old(content) && journal == None
    {
      ok := *;
      if ok { journal := None; }
      if !ok { failed := failed + 1; }
    }

    method Rollback() returns (ok: bool)
      requires journal.Some?
      modifies this`content, this`journal, this`failed
      ensures failed == old(failed) + if ok then 0 else 1
      ensures ok ==> content == old(journal).value && journal == None
    {
      ok := *;
      if ok {
        content := journal.value;
        journal := None;
      }
      if !ok { failed := failed + 1; }
    }
  }
}
