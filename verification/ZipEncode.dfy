/** Archives as a writer lays them out, and the proof that reading the directory back undoes it. */
module ZipEncode {
  import opened Wrappers
  import opened Bytes
  import opened Zip

  /** An extra field: an id and a body. */
  datatype Field = Field(kind: nat, body: seq<byte>)

  /**
    A member as its central directory record describes it, with the header fields
    a reader passes over. `before` are extra fields ahead of the ZIP64 one, `after`
    whatever follows it.
   */
  datatype Entry = Entry(
    name: seq<byte>, size: nat, compressed: nat, offset: nat, disk: nat,
    compression: nat, crc: nat, flags: nat, made: nat, need: nat, time: nat, date: nat, inner: nat, outer: nat,
    before: seq<Field>, after: seq<byte>, comment: seq<byte>)

  // -- overflowing values -------------------------------------------------

  function Narrow(values: seq<nat>, limits: seq<nat>): (narrow: seq<nat>)
    requires |values| == |limits|
    ensures |narrow| == |values|
  {
    if values == [] then [] else [Min(values[0], limits[0])] + Narrow(values[1..], limits[1..])
  }

  /** The values that do not fit their header, in order, at full width. */
  function Wide(values: seq<nat>, limits: seq<nat>, widths: seq<nat>): (field: seq<byte>)
    requires |values| == |limits| == |widths|
  {
    if values == [] then []
    else (if values[0] >= limits[0] then LittleEndian(values[0], widths[0]) else [])
         + Wide(values[1..], limits[1..], widths[1..])
  }

  lemma {:induction false} WideRoundTrip(values: seq<nat>, limits: seq<nat>, widths: seq<nat>)
    requires |values| == |limits| == |widths| && Fit(widths, values)
    ensures |Wide(values, limits, widths)| == Expected(Narrow(values, limits), limits, widths)
    ensures Resolve(Narrow(values, limits), limits, widths, Wide(values, limits, widths)) == values
  {
    if values != [] {
      FitRest(widths, values);
      WideRoundTrip(values[1..], limits[1..], widths[1..]);
      var narrow := Narrow(values, limits);
      assert narrow[1..] == Narrow(values[1..], limits[1..]);
      var rest := Wide(values[1..], limits[1..], widths[1..]);
      if values[0] >= limits[0] {
        LittleEndianRoundTrip(values[0], widths[0]);
        var first := LittleEndian(values[0], widths[0]);
        assert (first + rest)[..widths[0]] == first && (first + rest)[widths[0]..] == rest;
      } else {
        assert [] + rest == rest;
      }
      assert values == [values[0]] + values[1..];
    }
  }

  // -- extra fields -------------------------------------------------------

  function FieldBytes(f: Field): seq<byte>
  {
    LittleEndian(f.kind, 2) + LittleEndian(|f.body|, 2) + f.body
  }

  function FieldsBytes(fields: seq<Field>): seq<byte>
  {
    if fields == [] then [] else FieldBytes(fields[0]) + FieldsBytes(fields[1..])
  }

  lemma FieldReads(f: Field, rest: seq<byte>)
    requires f.kind <= U16 && |f.body| <= U16
    ensures var x := FieldBytes(f) + rest;
            && |x| >= 4 + |f.body|
            && FromLittleEndian(x[..2]) == f.kind && FromLittleEndian(x[2..4]) == |f.body|
            && x[4..4 + |f.body|] == f.body && x[4 + |f.body|..] == rest
  {
    PowersOf256();
    LittleEndianRoundTrip(f.kind, 2);
    LittleEndianRoundTrip(|f.body|, 2);
    var x := FieldBytes(f) + rest;
    assert x[..2] == LittleEndian(f.kind, 2);
    assert x[2..4] == LittleEndian(|f.body|, 2);
  }

  /** The ZIP64 field is found behind any others, whatever follows it. */
  lemma {:induction false} FieldFound(before: seq<Field>, body: seq<byte>, after: seq<byte>)
    requires forall i | 0 <= i < |before| ::
               before[i].kind <= U16 && before[i].kind != ZIP64_FIELD && |before[i].body| <= U16
    requires |body| <= U16
    ensures FieldIn(FieldsBytes(before) + FieldBytes(Field(ZIP64_FIELD, body)) + after) == Some(body)
  {
    hide FieldBytes;
    var last := FieldBytes(Field(ZIP64_FIELD, body));
    if before == [] {
      FieldReads(Field(ZIP64_FIELD, body), after);
      assert FieldsBytes(before) + last + after == last + after;
    } else {
      var rest := FieldsBytes(before[1..]) + last + after;
      FieldReads(before[0], rest);
      assert FieldsBytes(before) + last + after == FieldBytes(before[0]) + rest;
      FieldFound(before[1..], body, after);
    }
  }

  // -- one record ---------------------------------------------------------

  function Values(e: Entry): seq<nat> { [e.size, e.compressed, e.offset, e.disk] }

  function Overflow(e: Entry): seq<byte> { Wide(Values(e), LIMITS, WIDTHS) }

  function Extra(e: Entry): seq<byte>
  {
    FieldsBytes(e.before) + (if Overflow(e) == [] then [] else FieldBytes(Field(ZIP64_FIELD, Overflow(e)))) + e.after
  }

  /** The fixed fields, `extra` the length of the extra ones. */
  function Fixed(e: Entry, extra: nat): (fields: seq<nat>)
    ensures |fields| == 17
  {
    [CDFH_SIG, e.made, e.need, e.flags, e.compression, e.time, e.date, e.crc, Min(e.compressed, U32), Min(e.size, U32),
     |e.name|, extra, |e.comment|, Min(e.disk, U16), e.inner, e.outer, Min(e.offset, U32)]
  }

  function Header(e: Entry): (fields: seq<nat>)
    ensures |fields| == 17
  {
    Fixed(e, |Extra(e)|)
  }

  function Encode(e: Entry): (data: seq<byte>)
  {
    Pack(CDFH, Header(e)) + e.name + Extra(e) + e.comment
  }

  /** What the format can hold. */
  ghost predicate Encodable(e: Entry)
  {
    && |e.name| <= U16 && |Extra(e)| <= U16 && |e.comment| <= U16
    && e.compression <= U16 && e.flags <= U16 && e.made <= U16 && e.need <= U16 && e.time <= U16 && e.date <= U16
    && e.inner <= U16 && e.outer <= U32 && e.crc <= U32
    && e.size < Pow256(8) && e.compressed < Pow256(8) && e.offset < Pow256(8) && e.disk < Pow256(4)
    && (forall i | 0 <= i < |e.before| ::
          e.before[i].kind <= U16 && e.before[i].kind != ZIP64_FIELD && |e.before[i].body| <= U16)
  }

  function MemberOf(e: Entry): Member { Member(e.name, e.size, e.compressed, e.offset, e.compression, e.crc, e.flags) }

  lemma HeaderFits(e: Entry)
    requires Encodable(e)
    ensures Fit(CDFH, Header(e))
  {
    PowersOf256();
  }

  lemma WideResolves(e: Entry)
    requires Encodable(e)
    ensures WideValues(Extra(e), [Min(e.size, U32), Min(e.compressed, U32), Min(e.offset, U32), Min(e.disk, U16)])
            == Ok(Values(e))
  {
    var narrow := [Min(e.size, U32), Min(e.compressed, U32), Min(e.offset, U32), Min(e.disk, U16)];
    NarrowIs(e);
    WideRoundTrip(Values(e), LIMITS, WIDTHS);
    if Overflow(e) == [] {
      NothingWide(narrow, LIMITS, WIDTHS, []);
    } else {
      assert |Overflow(e)| <= |Extra(e)|;
      FieldFound(e.before, Overflow(e), e.after);
    }
  }

  lemma NarrowIs(e: Entry)
    ensures Narrow(Values(e), LIMITS) == [Min(e.size, U32), Min(e.compressed, U32), Min(e.offset, U32),
            Min(e.disk, U16)]
  {
    var v, l := Values(e), LIMITS;
    assert v[1..] == [e.compressed, e.offset, e.disk] && l[1..] == [U32, U32, U16];
    assert v[1..][1..] == [e.offset, e.disk] && l[1..][1..] == [U32, U16];
    assert v[1..][1..][1..] == [e.disk] && l[1..][1..][1..] == [U16];
    assert Narrow([e.disk], [U16]) == [Min(e.disk, U16)] + Narrow([e.disk][1..], [U16][1..]);
    assert Narrow([e.offset, e.disk], [U32, U16]) == [Min(e.offset, U32)] + Narrow([e.disk], [U16]);
  }

  lemma {:induction false} NothingWide(narrow: seq<nat>, limits: seq<nat>, widths: seq<nat>, field: seq<byte>)
    requires |narrow| == |limits| == |widths| && Expected(narrow, limits, widths) == 0 == |field|
    requires forall i | 0 <= i < |widths| :: widths[i] > 0
    ensures Resolve(narrow, limits, widths, field) == narrow
  {
    if narrow != [] {
      NothingWide(narrow[1..], limits[1..], widths[1..], field);
      assert narrow == [narrow[0]] + narrow[1..];
    }
  }

  lemma Layout(head: seq<byte>, name: seq<byte>, extra: seq<byte>, comment: seq<byte>, rest: seq<byte>)
    ensures var data := head + name + extra + comment + rest;
            && data == head + (name + extra + comment + rest)
            && data[|head|..|head| + |name|] == name
            && data[|head| + |name|..|head| + |name| + |extra|] == extra
  {
  }

  lemma HeaderRoundTrip(e: Entry, tail: seq<byte>)
    requires Encodable(e)
    ensures |Pack(CDFH, Header(e))| == CDFH_SIZE
    ensures CdfhFields(Pack(CDFH, Header(e)) + tail) == Header(e)
  {
    CdfhSize();
    HeaderFits(e);
    PackRoundTrip(CDFH, Header(e), tail);
  }

  /** The result of reading a record is this entry, in so many bytes. */
  ghost predicate Reads(r: Result<(Member, nat), Error>, e: Entry, length: int)
  {
    r.Ok? && r.value.0 == MemberOf(e) && r.value.1 == length
  }

  /** The bytes hold the entry's header, name and extra fields where they belong. */
  ghost predicate Holds(data: seq<byte>, e: Entry, extra: seq<byte>)
  {
    && |data| >= CDFH_SIZE + |e.name| + |extra| + |e.comment|
    && CdfhFields(data) == Header(e)
    && data[CDFH_SIZE..CDFH_SIZE + |e.name|] == e.name
    && data[CDFH_SIZE + |e.name|..CDFH_SIZE + |e.name| + |extra|] == extra
  }

  lemma RecordIs(data: seq<byte>, e: Entry, extra: seq<byte>, size: nat)
    requires Holds(data, e, extra) && extra == Extra(e) && e.offset + e.compressed <= size
    requires WideValues(extra, [Min(e.size, U32), Min(e.compressed, U32), Min(e.offset, U32), Min(e.disk, U16)])
             == Ok(Values(e))
    ensures Reads(Record(data, size), e, CDFH_SIZE + |e.name| + |extra| + |e.comment|)
  {
  }

  lemma HoldsFrom(head: seq<byte>, e: Entry, extra: seq<byte>, rest: seq<byte>)
    requires |head| == CDFH_SIZE && CdfhFields(head + (e.name + extra + e.comment + rest)) == Header(e)
    ensures Holds(head + e.name + extra + e.comment + rest, e, extra)
  {
    Layout(head, e.name, extra, e.comment, rest);
  }

  /** Reading a record undoes writing it, whatever comes after it. */
  lemma RecordRoundTrip(e: Entry, rest: seq<byte>, size: nat)
    requires Encodable(e) && e.offset + e.compressed <= size
    ensures |Encode(e)| >= CDFH_SIZE
    ensures Reads(Record(Encode(e) + rest, size), e, |Encode(e)|)
  {
    HeaderRoundTrip(e, e.name + Extra(e) + e.comment + rest);
    HoldsFrom(Pack(CDFH, Header(e)), e, Extra(e), rest);
    WideResolves(e);
    RecordIs(Encode(e) + rest, e, Extra(e), size);
  }

  // -- the whole directory ------------------------------------------------

  function EncodeAll(entries: seq<Entry>): (data: seq<byte>)
  {
    if entries == [] then [] else Encode(entries[0]) + EncodeAll(entries[1..])
  }

  function MembersOf(entries: seq<Entry>): (members: seq<Member>)
  {
    if entries == [] then [] else [MemberOf(entries[0])] + MembersOf(entries[1..])
  }

  ghost predicate AllInside(entries: seq<Entry>, size: nat)
  {
    forall i | 0 <= i < |entries| :: Encodable(entries[i]) && entries[i].offset + entries[i].compressed <= size
  }

  lemma ParsedStep(first: seq<byte>, e: Entry, rest: seq<byte>, count: nat, size: nat, more: seq<Member>)
    requires |first| >= CDFH_SIZE && Reads(Record(first + rest, size), e, |first|)
    requires Parsed(rest, count, size) == Ok(more)
    ensures Parsed(first + rest, count + 1, size) == Ok([MemberOf(e)] + more)
  {
    assert (first + rest)[|first|..] == rest;
  }

  lemma {:induction false} DirectoryRoundTrip(entries: seq<Entry>, size: nat)
    requires AllInside(entries, size)
    ensures Parsed(EncodeAll(entries), |entries|, size) == Ok(MembersOf(entries))
  {
    hide Record, Encode, Encodable;
    if entries != [] {
      var e, rest := entries[0], EncodeAll(entries[1..]);
      assert AllInside(entries[1..], size);
      DirectoryRoundTrip(entries[1..], size);
      RecordRoundTrip(e, rest, size);
      ParsedStep(Encode(e), e, rest, |entries| - 1, size, MembersOf(entries[1..]));
    }
  }
}
