/**
  Byte strings, and the two things every part of the client does to a file's
  content: read a window of it and lay bytes over it at an offset.
 */
module Bytes {

  type byte = b: int | 0 <= b < 256

  function Min(a: int, b: int): int { if a <= b then a else b }

  function Max(a: int, b: int): int { if a >= b then a else b }

  /** What a read of `length` bytes at `offset` answers: short only at end of file. */
  function Window(file: seq<byte>, offset: nat, length: nat): (data: seq<byte>)
    ensures |data| <= length
    ensures |data| < length ==> offset + |data| >= |file|
    ensures forall k | 0 <= k < |data| :: offset + k < |file| && data[k] == file[offset + k]
  {
    file[Min(offset, |file|)..Min(offset + length, |file|)]
  }

  /**
    The content after `data` has been stored at `offset`. A gap below `offset`
    reads as zeros, and storing nothing changes nothing, as pwrite(2) has it.
   */
  function Overlay(file: seq<byte>, offset: nat, data: seq<byte>): (after: seq<byte>)
    ensures data == [] ==> after == file
    ensures data != [] ==> |after| == Max(|file|, offset + |data|)
    ensures forall i | 0 <= i < |after| ::
              after[i] == (if offset <= i < offset + |data| then data[i - offset]
                           else if i < |file| then file[i] else 0)
  {
    if data == [] then file
    else seq(Max(|file|, offset + |data|), i requires i >= 0 =>
               if offset <= i < offset + |data| then data[i - offset]
               else if i < |file| then file[i] else 0)
  }

  /** Storing a run in two halves, in order, is storing it whole. */
  lemma OverlayJoins(file: seq<byte>, offset: nat, a: seq<byte>, b: seq<byte>)
    ensures Overlay(Overlay(file, offset, a), offset + |a|, b) == Overlay(file, offset, a + b)
  {
    if a == [] {
      assert a + b == b;
    } else if b == [] {
      assert a + b == a;
    }
  }

  // -- fixed-width integers -----------------------------------------------

  function Pow256(width: nat): (p: nat)
    ensures p > 0
  {
    if width == 0 then 1 else 256 * Pow256(width - 1)
  }

  /** `value` in `width` little-endian bytes, as `struct` packs the formats with "<". */
  function LittleEndian(value: nat, width: nat): (data: seq<byte>)
    ensures |data| == width
  {
    if width == 0 then [] else [value % 256] + LittleEndian(value / 256, width - 1)
  }

  function FromLittleEndian(data: seq<byte>): (value: nat)
  {
    if data == [] then 0 else data[0] + 256 * FromLittleEndian(data[1..])
  }

  lemma {:induction false} LittleEndianRoundTrip(value: nat, width: nat)
    requires value < Pow256(width)
    ensures FromLittleEndian(LittleEndian(value, width)) == value
  {
    if width > 0 {
      LittleEndianRoundTrip(value / 256, width - 1);
      assert LittleEndian(value, width)[1..] == LittleEndian(value / 256, width - 1);
    }
  }

  /** `value` in `width` big-endian bytes, as `struct` packs the formats with ">". */
  function BigEndian(value: nat, width: nat): (data: seq<byte>)
    ensures |data| == width
  {
    if width == 0 then [] else BigEndian(value / 256, width - 1) + [value % 256]
  }

  function FromBigEndian(data: seq<byte>): (value: nat)
  {
    if data == [] then 0 else 256 * FromBigEndian(data[..|data| - 1]) + data[|data| - 1]
  }

  lemma {:induction false} BigEndianRoundTrip(value: nat, width: nat)
    requires value < Pow256(width)
    ensures FromBigEndian(BigEndian(value, width)) == value
  {
    if width > 0 {
      BigEndianRoundTrip(value / 256, width - 1);
      assert BigEndian(value, width)[..width - 1] == BigEndian(value / 256, width - 1);
    }
  }

  lemma PowersOf256()
    ensures Pow256(2) == 0x1_0000
    ensures Pow256(4) == 0x1_0000_0000
    ensures Pow256(8) == 0x1_0000_0000_0000_0000
  {
    assert Pow256(0) == 1;
    assert Pow256(1) == 256;
    assert Pow256(2) == 0x1_0000;
    assert Pow256(3) == 0x100_0000;
    assert Pow256(4) == 0x1_0000_0000;
    assert Pow256(6) == 256 * Pow256(5);
    assert Pow256(8) == 256 * Pow256(7);
  }
}
