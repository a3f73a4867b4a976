/** What a directory record says, by the places of its bytes; the layout is that of section 4.3.12 of the APPNOTE. */
module ZipRecord {
  import opened Wrappers
  import opened Bytes
  import opened Zip

  /** The number in `width` bytes at `at`. */
  function Number(data: seq<byte>, at: nat, width: nat): nat
    requires at + width <= |data|
  {
    FromLittleEndian(data[at..at + width])
  }

  /** Each field stands behind all those before it. */
  lemma {:induction false} UnpackAt(widths: seq<nat>, data: seq<byte>, k: nat)
    requires k < |widths| && Size(widths) <= |data|
    ensures Size(widths[..k]) + widths[k] <= |data|
    ensures Unpack(widths, data)[k] == Number(data, Size(widths[..k]), widths[k])
    decreases k
  {
    hide Unpack, FromLittleEndian;
    if k > 0 {
      UnpackAt(widths[1..], data[widths[0]..], k - 1);
      assert widths[..k][1..] == widths[1..][..k - 1];
      NumberBehind(data, widths[0], Size(widths[1..][..k - 1]), widths[k]);
      UnpackRest(widths, data, k);
    } else {
      UnpackFirst(widths, data);
    }
  }

  lemma UnpackFirst(widths: seq<nat>, data: seq<byte>)
    requires widths != [] && Size(widths) <= |data|
    ensures Size(widths[..0]) == 0 && Unpack(widths, data)[0] == Number(data, 0, widths[0])
  {
    hide FromLittleEndian;
    assert data[0..widths[0]] == data[..widths[0]];
  }

  lemma UnpackRest(widths: seq<nat>, data: seq<byte>, k: nat)
    requires 0 < k < |widths| && Size(widths) <= |data|
    ensures Unpack(widths, data)[k] == Unpack(widths[1..], data[widths[0]..])[k - 1]
  {
  }

  lemma NumberBehind(data: seq<byte>, start: nat, at: nat, width: nat)
    requires start + at + width <= |data|
    ensures Number(data[start..], at, width) == Number(data, start + at, width)
  {
    SliceBehind(data, start, at, at + width);
  }

  const PLACES: seq<nat> := [0, 4, 6, 8, 10, 12, 14, 16, 20, 24, 28, 30, 32, 34, 36, 38, 42]

  /** Places that follow on from one another are where the fields stand. */
  lemma {:induction false} PlacesAdd(widths: seq<nat>, places: seq<nat>, k: nat)
    requires k < |widths| == |places| && places[0] == 0
    requires forall i | 0 < i < |widths| :: places[i] == places[i - 1] + widths[i - 1]
    ensures Size(widths[..k]) == places[k]
  {
    if k > 0 {
      PlacesAdd(widths, places, k - 1);
      assert widths[..k] == widths[..k - 1] + [widths[k - 1]] && [widths[k - 1]][1..] == [];
      SizeAppend(widths[..k - 1], [widths[k - 1]]);
    }
  }

  lemma FieldStands(data: seq<byte>, k: nat)
    requires |data| >= CDFH_SIZE && k < 17
    ensures PLACES[k] + CDFH[k] <= |data| && CdfhFields(data)[k] == Number(data, PLACES[k], CDFH[k])
  {
    hide Unpack, Size;
    CdfhSize();
    PlacesFollow();
    PlacesAdd(CDFH, PLACES, k);
    UnpackAt(CDFH, data, k);
  }

  lemma PlacesFollow()
    ensures |PLACES| == |CDFH| == 17 && PLACES[0] == 0
    ensures forall i | 0 < i < 17 :: PLACES[i] == PLACES[i - 1] + CDFH[i - 1]
  {
  }

  /** How long the record at the start of `data` says it is. */
  function Length(data: seq<byte>): nat
    requires |data| >= CDFH_SIZE
  {
    CDFH_SIZE + Number(data, 28, 2) + Number(data, 30, 2) + Number(data, 32, 2)
  }

  /** Its signature stands there and all of it does. */
  ghost predicate Stands(data: seq<byte>)
    requires |data| >= CDFH_SIZE
  {
    data[..4] == [0x50, 0x4B, 0x01, 0x02] && Length(data) <= |data|
  }

  /** Its two sizes, its offset and its disk, where they overflow those of its ZIP64 field. */
  function Values(data: seq<byte>): Result<seq<nat>, Error>
    requires |data| >= CDFH_SIZE && Length(data) <= |data|
  {
    var name := Number(data, 28, 2);
    WideValues(data[CDFH_SIZE + name..CDFH_SIZE + name + Number(data, 30, 2)],
               [Number(data, 24, 4), Number(data, 20, 4), Number(data, 42, 4), Number(data, 34, 2)])
  }

  ghost predicate Says(data: seq<byte>, m: Member)
    requires |data| >= CDFH_SIZE && Length(data) <= |data|
  {
    && Values(data).Ok? && m.size == Values(data).value[0] && m.compressed == Values(data).value[1]
    && m.offset == Values(data).value[2]
    && m.name == data[CDFH_SIZE..CDFH_SIZE + Number(data, 28, 2)]
    && m.flags == Number(data, 8, 2) && m.compression == Number(data, 10, 2) && m.crc == Number(data, 16, 4)
  }

  lemma SignatureBytes(data: seq<byte>)
    requires |data| >= 4
    ensures Number(data, 0, 4) == CDFH_SIG <==> data[..4] == [0x50, 0x4B, 0x01, 0x02]
  {
    var four := data[0..4];
    FourBytes(four);
    FourBytes([0x50, 0x4B, 0x01, 0x02]);
    assert data[..4] == four;
  }

  lemma FourBytes(b: seq<byte>)
    requires |b| == 4
    ensures var v, w, x, y: int := b[0], b[1], b[2], b[3];
            FromLittleEndian(b) == v + 256 * w + 65536 * x + 16777216 * y
  {
    var c, d, e := b[1..], b[2..], b[3..];
    assert c[1..] == d && d[1..] == e && e[1..] == [];
    assert FromLittleEndian(e) == e[0] + 256 * FromLittleEndian(e[1..]);
    assert FromLittleEndian(d) == d[0] + 256 * FromLittleEndian(e);
    assert FromLittleEndian(c) == c[0] + 256 * FromLittleEndian(d);
  }

  /** A record is accepted exactly when it stands whole, its values resolve, and its member is inside the archive. */
  lemma RecordExactly(data: seq<byte>, size: nat, m: Member, length: nat)
    requires |data| >= CDFH_SIZE
    ensures Record(data, size) == Ok((m, length)) <==>
            Stands(data) && length == Length(data) && Says(data, m) && m.offset + m.compressed <= size
  {
    hide CdfhFields, WideValues;
    SignatureBytes(data);
    forall k: nat | k < 17
      ensures PLACES[k] + CDFH[k] <= |data| && CdfhFields(data)[k] == Number(data, PLACES[k], CDFH[k])
    {
      FieldStands(data, k);
    }
    var f := CdfhFields(data);
    assert f[0] == Number(data, 0, 4) && f[3] == Number(data, 8, 2) && f[4] == Number(data, 10, 2);
    assert f[7] == Number(data, 16, 4) && f[8] == Number(data, 20, 4) && f[9] == Number(data, 24, 4);
    assert f[10] == Number(data, 28, 2) && f[11] == Number(data, 30, 2) && f[12] == Number(data, 32, 2);
    assert f[13] == Number(data, 34, 2) && f[16] == Number(data, 42, 4);
  }

  /**
    One record right behind another, as many as are declared or until too little is left
    for one, each of them whole and each saying what its member is.
   */
  ghost predicate Chain(data: seq<byte>, count: nat, size: nat, members: seq<Member>)
    decreases count
  {
    if count == 0 || |data| < CDFH_SIZE then members == []
    else
      && members != [] && Stands(data) && Says(data, members[0])
      && members[0].offset + members[0].compressed <= size
      && Chain(data[Length(data)..], count - 1, size, members[1..])
  }

  lemma {:induction false} ParsedExactly(data: seq<byte>, count: nat, size: nat, members: seq<Member>)
    ensures Parsed(data, count, size) == Ok(members) <==> Chain(data, count, size, members)
    decreases count
  {
    hide Record, Says, Stands;
    if count > 0 && |data| >= CDFH_SIZE {
      if Record(data, size).Ok? {
        var (m, length) := Record(data, size).value;
        RecordExactly(data, size, m, length);
        if members != [] {
          RecordExactly(data, size, members[0], Length(data));
          ParsedExactly(data[length..], count - 1, size, members[1..]);
          assert members == [members[0]] + members[1..];
        }
      } else if members != [] {
        RecordExactly(data, size, members[0], Length(data));
      }
    }
  }

  /** A directory is accepted exactly for the members its records name, if together they fit the archive. */
  lemma CheckedExactly(data: seq<byte>, count: nat, size: nat, members: seq<Member>)
    ensures Checked(data, count, size) == Ok(members) <==>
            Chain(data, count, size, members) && Packed(members) <= size
  {
    ParsedExactly(data, count, size, members);
  }

  // -- the records at the end ---------------------------------------------

  const END_PLACES: seq<nat> := [0, 4, 6, 8, 10, 12, 16, 20]
  const LOCATOR_PLACES: seq<nat> := [0, 4, 8, 16]
  const WIDE_PLACES: seq<nat> := [0, 4, 12, 14, 16, 20, 24, 32, 40, 48]

  lemma EndStands(data: seq<byte>, k: nat)
    requires |data| >= EOCD_SIZE && k < 8
    ensures END_PLACES[k] + EOCD[k] <= |data| && EocdFields(data)[k] == Number(data, END_PLACES[k], EOCD[k])
  {
    hide Unpack, Size;
    EocdSize();
    EndPlacesFollow();
    PlacesAdd(EOCD, END_PLACES, k);
    UnpackAt(EOCD, data, k);
  }

  lemma LocatorStands(data: seq<byte>, k: nat)
    requires |data| >= LOCATOR_SIZE && k < 4
    ensures LOCATOR_PLACES[k] + LOCATOR[k] <= |data|
    ensures LocatorFields(data)[k] == Number(data, LOCATOR_PLACES[k], LOCATOR[k])
  {
    hide Unpack, Size;
    EocdSize();
    EndPlacesFollow();
    PlacesAdd(LOCATOR, LOCATOR_PLACES, k);
    UnpackAt(LOCATOR, data, k);
  }

  lemma WideStands(data: seq<byte>, k: nat)
    requires |data| >= EOCD64_SIZE && k < 10
    ensures WIDE_PLACES[k] + EOCD64[k] <= |data| && Eocd64Fields(data)[k] == Number(data, WIDE_PLACES[k], EOCD64[k])
  {
    hide Unpack, Size;
    Eocd64Size();
    EndPlacesFollow();
    PlacesAdd(EOCD64, WIDE_PLACES, k);
    UnpackAt(EOCD64, data, k);
  }

  lemma EndPlacesFollow()
    ensures |END_PLACES| == |EOCD| == 8 && |LOCATOR_PLACES| == |LOCATOR| == 4 && |WIDE_PLACES| == |EOCD64| == 10
    ensures END_PLACES[0] == LOCATOR_PLACES[0] == WIDE_PLACES[0] == 0
    ensures forall i | 0 < i < 8 :: END_PLACES[i] == END_PLACES[i - 1] + EOCD[i - 1]
    ensures forall i | 0 < i < 4 :: LOCATOR_PLACES[i] == LOCATOR_PLACES[i - 1] + LOCATOR[i - 1]
    ensures forall i | 0 < i < 10 :: WIDE_PLACES[i] == WIDE_PLACES[i - 1] + EOCD64[i - 1]
  {
  }

  /** Where the first read starts. */
  function Start(archive: seq<byte>): nat { |archive| - Min(|archive|, TAIL) }

  /** The last place in the first read where a closing record could start and its signature stands. */
  ghost predicate EndAt(archive: seq<byte>, at: nat)
  {
    && Start(archive) <= at && at + EOCD_SIZE <= |archive| && SigAt(archive, at, EOCD_SIG)
    && forall k | at < k <= |archive| - EOCD_SIZE :: !SigAt(archive, k, EOCD_SIG)
  }

  /** There is a locator in front of it, not at the very start of the first read. */
  predicate LocatorBefore(archive: seq<byte>, at: nat)
  {
    at - LOCATOR_SIZE > Start(archive) && SigAt(archive, at - LOCATOR_SIZE, LOCATOR_SIG)
  }

  /** The directory is where the closing record says, or the wider one that the locator leads to. */
  ghost predicate Points(archive: seq<byte>, at: nat, l: Located)
    requires at + EOCD_SIZE <= |archive|
  {
    if LocatorBefore(archive, at) then
      var wide := Number(archive, at - LOCATOR_SIZE + 8, 8);
      && wide + EOCD64_SIZE <= |archive| && SigAt(archive, wide, EOCD64_SIG)
      && l == Located(Number(archive, wide + 32, 8), Number(archive, wide + 40, 8), Number(archive, wide + 48, 8))
    else l == Located(Number(archive, at + 10, 2), Number(archive, at + 12, 4), Number(archive, at + 16, 4))
  }

  /** The search gives the last closing record, and nothing when there is none. */
  lemma SearchExactly(archive: seq<byte>, at: nat)
    ensures var start := Start(archive);
            EndAt(archive, at) <==>
            LastEocd(archive[start..], |archive| - start - EOCD_SIZE) == at - start >= 0
  {
    hide SigAt;
    var start := Start(archive);
    var tail := archive[start..];
    forall k: nat ensures SigAt(tail, k, EOCD_SIG) == SigAt(archive, start + k, EOCD_SIG) {
      SigFrom(archive, start, k, EOCD_SIG);
    }
    forall k: nat | k >= start ensures SigAt(archive, k, EOCD_SIG) == SigAt(tail, k - start, EOCD_SIG) {
      SigFrom(archive, start, k - start, EOCD_SIG);
    }
  }

  lemma NarrowPoints(archive: seq<byte>, at: nat)
    requires at + EOCD_SIZE <= |archive|
    ensures var f := EocdFields(archive[at..]);
            && f[4] == Number(archive, at + 10, 2) && f[5] == Number(archive, at + 12, 4)
            && f[6] == Number(archive, at + 16, 4) && f[7] == Number(archive, at + 20, 2)
  {
    hide EocdFields;
    var data := archive[at..];
    EndStands(data, 4);
    EndStands(data, 5);
    EndStands(data, 6);
    EndStands(data, 7);
    NumberBehind(archive, at, 10, 2);
    NumberBehind(archive, at, 12, 4);
    NumberBehind(archive, at, 16, 4);
    NumberBehind(archive, at, 20, 2);
  }

  /** The wider record, wherever it was read from. */
  lemma WidePoints(archive: seq<byte>, wide: nat, record: seq<byte>)
    requires wide + EOCD64_SIZE <= |archive| && |record| >= EOCD64_SIZE
    requires record[..EOCD64_SIZE] == archive[wide..wide + EOCD64_SIZE]
    ensures var f := Eocd64Fields(record);
            && f[7] == Number(archive, wide + 32, 8) && f[8] == Number(archive, wide + 40, 8)
            && f[9] == Number(archive, wide + 48, 8)
    ensures SigAt(record, 0, EOCD64_SIG) == SigAt(archive, wide, EOCD64_SIG)
  {
    hide Eocd64Fields, FromLittleEndian;
    WideStands(record, 7);
    WideStands(record, 8);
    WideStands(record, 9);
    SameStretch(archive, wide, record, 0, 4);
    SameStretch(archive, wide, record, 32, 8);
    SameStretch(archive, wide, record, 40, 8);
    SameStretch(archive, wide, record, 48, 8);
  }

  lemma SameStretch(archive: seq<byte>, wide: nat, record: seq<byte>, at: nat, width: nat)
    requires wide + EOCD64_SIZE <= |archive| && |record| >= EOCD64_SIZE && at + width <= EOCD64_SIZE
    requires record[..EOCD64_SIZE] == archive[wide..wide + EOCD64_SIZE]
    ensures record[at..at + width] == archive[wide + at..wide + at + width]
  {
    Stretch(record, 0, EOCD64_SIZE, at, width);
    Stretch(archive, wide, EOCD64_SIZE, at, width);
    assert record[0..EOCD64_SIZE] == record[..EOCD64_SIZE];
  }

  lemma Stretch(data: seq<byte>, start: nat, size: nat, at: nat, width: nat)
    requires start + size <= |data| && at + width <= size
    ensures data[start..start + size][at..at + width] == data[start + at..start + at + width]
  {
    var piece := data[start..start + size];
    var a, b := piece[at..at + width], data[start + at..start + at + width];
    forall i | 0 <= i < width ensures a[i] == b[i] {
      assert piece[at + i] == data[start + (at + i)];
    }
  }

  /** What is read of the wider record: enough exactly when all of it is in the archive. */
  lemma WideRead(archive: seq<byte>, start: nat, offset: nat)
    requires start <= |archive|
    ensures var tail := archive[start..];
            var record := if start > offset then Window(archive, offset, EOCD64_SIZE)
                          else tail[Min(offset - start, |tail|)..];
            && (|record| >= EOCD64_SIZE <==> offset + EOCD64_SIZE <= |archive|)
            && (|record| >= EOCD64_SIZE ==> record[..EOCD64_SIZE] == archive[offset..offset + EOCD64_SIZE])
  {
  }

  /** The reader takes the directory to be exactly where the records at the end say. */
  lemma Zip64Exactly(archive: seq<byte>, at: nat, l: Located)
    requires Start(archive) <= at && at + EOCD_SIZE <= |archive|
    ensures var start := Start(archive);
            var r := Zip64(archive, archive[start..], start, at - start);
            var f := EocdFields(archive[at..]);
            Points(archive, at, l) <==>
            r.Ok? && l == if r.value.Some? then r.value.value else Located(f[4], f[5], f[6])
  {
    hide EocdFields, LocatorFields, Eocd64Fields, FromLittleEndian, Window;
    var start := Start(archive);
    var tail, locator := archive[start..], at - start - LOCATOR_SIZE;
    NarrowPoints(archive, at);
    if locator > 0 {
      SigFrom(archive, start, locator, LOCATOR_SIG);
      assert tail[locator..] == archive[start + locator..];
      LocatorStands(tail[locator..], 2);
      NumberBehind(archive, start + locator, 8, 8);
      var offset := LocatorFields(tail[locator..])[2];
      WideRead(archive, start, offset);
      var record := if start > offset then Window(archive, offset, EOCD64_SIZE)
                    else tail[Min(offset - start, |tail|)..];
      if |record| >= EOCD64_SIZE { WidePoints(archive, offset, record); }
    }
  }

  /** What the archive holds, by the bytes at its end. */
  ghost predicate Holds(archive: seq<byte>, at: nat, d: Directory)
    requires at + EOCD_SIZE <= |archive|
  {
    var comment := Number(archive, at + 20, 2);
    && at + EOCD_SIZE + comment <= |archive| && d.comment == archive[at + EOCD_SIZE..at + EOCD_SIZE + comment]
    && Points(archive, at, Located(d.count, d.size, d.offset)) && d.offset + d.size <= |archive|
    && d.records == archive[d.offset..d.offset + d.size]
    && Chain(d.records, d.count, |archive|, d.members) && Packed(d.members) <= |archive|
  }

  /** Read whole or on its own, the directory is the same stretch of the archive. */
  lemma ContentsAre(archive: seq<byte>, start: nat, l: Located, comment: seq<byte>)
    ensures l.offset + l.size > |archive| ==> Contents(archive, start, l, comment).Err?
    ensures l.offset + l.size <= |archive| ==>
              var records := archive[l.offset..l.offset + l.size];
              Contents(archive, start, l, comment) ==
              match Checked(records, l.count, |archive|)
              case Err(e) => Err(e)
              case Ok(found) => Ok(Directory(l.offset, l.size, l.count, records, comment, found))
  {
    hide Checked, Window;
    if l.offset + l.size <= |archive| { WindowInside(archive, l.offset, l.size); }
  }

  lemma ContentsExactly(archive: seq<byte>, start: nat, l: Located, comment: seq<byte>, d: Directory)
    ensures Contents(archive, start, l, comment) == Ok(d) <==>
            && l == Located(d.count, d.size, d.offset) && comment == d.comment && d.offset + d.size <= |archive|
            && d.records == archive[d.offset..d.offset + d.size]
            && Chain(d.records, d.count, |archive|, d.members) && Packed(d.members) <= |archive|
  {
    hide Checked, Chain, Packed, Contents;
    ContentsAre(archive, start, l, comment);
    if l.offset + l.size <= |archive| {
      var records := archive[l.offset..l.offset + l.size];
      CheckedExactly(records, l.count, |archive|, d.members);
      assert Checked(records, l.count, |archive|) == Ok(d.members) ==>
               Contents(archive, start, l, comment)
               == Ok(Directory(l.offset, l.size, l.count, records, comment, d.members));
    }
  }

  lemma WindowInside(archive: seq<byte>, offset: nat, size: nat)
    requires offset + size <= |archive|
    ensures Window(archive, offset, size) == archive[offset..offset + size]
  {
  }

  lemma SettledExactly(archive: seq<byte>, at: nat, l: Located, comment: seq<byte>)
    requires Start(archive) <= at && at + EOCD_SIZE <= |archive|
    ensures Settle(archive, Start(archive), at - Start(archive)) == Ok((l, comment)) <==>
            && at + EOCD_SIZE + Number(archive, at + 20, 2) <= |archive|
            && comment == archive[at + EOCD_SIZE..at + EOCD_SIZE + Number(archive, at + 20, 2)]
            && Points(archive, at, l)
  {
    hide EocdFields, Zip64, Points, FromLittleEndian;
    var start := Start(archive);
    var tail := archive[start..];
    assert tail[at - start..] == archive[at..];
    NarrowPoints(archive, at);
    Zip64Exactly(archive, at, l);
    var n := Number(archive, at + 20, 2);
    if at + EOCD_SIZE + n <= |archive| {
      assert tail[at - start + EOCD_SIZE..at - start + EOCD_SIZE + n] == archive[at + EOCD_SIZE..at + EOCD_SIZE + n];
    }
  }

  /**
    An archive that is not empty is read as `d` exactly when its last closing record and what that
    leads to say `d`: no closing record, a comment cut off, a locator that leads nowhere, a directory or a
    member outside the archive and a record that is none are all refused, and nothing else is.
   */
  lemma ReadExactly(archive: seq<byte>, d: Directory)
    requires archive != []
    ensures ReadDirectory(archive) == Ok(d) <==>
            exists at: nat | at + EOCD_SIZE <= |archive| :: EndAt(archive, at) && Holds(archive, at, d)
  {
    hide Settle, Contents, LastEocd, Points, Chain, Packed, EndAt;
    var start := Start(archive);
    var found := LastEocd(archive[start..], |archive| - start - EOCD_SIZE);
    if found >= 0 {
      var at := start + found;
      SearchExactly(archive, at);
      var settled := Settle(archive, start, found);
      SettledExactly(archive, at, Located(d.count, d.size, d.offset), d.comment);
      if settled.Ok? { ContentsExactly(archive, start, settled.value.0, settled.value.1, d); }
    }
    forall at: nat | at + EOCD_SIZE <= |archive| && EndAt(archive, at) ensures at == start + found && found >= 0 {
      SearchExactly(archive, at);
    }
  }
}
