/** The local side of a transfer: landing a whole piece through writes that may be short. */
module LocalFile {
  import opened Bytes

  class Descriptor {
    var content: seq<byte>
    /** How often a write of something stored nothing. */
    ghost var stalls: nat

    constructor (initial: seq<byte>)
      ensures content == initial
    {
      content, stalls := initial, 0;
    }

    /** One pwrite(2): it may store any part of what it is offered, or nothing. */
    method PWrite(data: seq<byte>, offset: nat) returns (count: nat)
      modifies this
      ensures count <= |data|
      ensures content == Overlay(old(content), offset, data[..count])
      ensures stalls == old(stalls) + if count == 0 && data != [] then 1 else 0
    {
      var stored: int := *;
      count := if 0 <= stored <= |data| then stored else 0;
      content := Overlay(content, offset, data[..count]);
      if count == 0 && data != [] { stalls := stalls + 1; }
    }

    /** Land all of `view`, or fail with exactly a prefix of it landed, but only when a write makes no progress. */
    method PWriteAll(view: seq<byte>, offset: nat) returns (done: bool, written: nat)
      modifies this
      ensures written <= |view| && (done <==> written == |view|)
      ensures stalls == old(stalls) + if done then 0 else 1
      ensures content == Overlay(old(content), offset, view[..written])
    {
      hide Overlay;
      written := 0;
      while written < |view|
        invariant written <= |view| && stalls == old(stalls)
        invariant content == Overlay(old(content), offset, view[..written])
      {
        var count := PWrite(view[written..], offset + written);
        OverlayJoins(old(content), offset, view[..written], view[written..][..count]);
        assert view[..written] + view[written..][..count] == view[..written + count];
        if count == 0 { return false, written; }
        written := written + count;
      }
      return true, written;
    }
  }
}
