/**
  Finding out what a ZIP archive holds from its last bytes. A fixed record closes
  the archive, before a comment; it says where the member headers are, unless a
  locator in front of it names a wider record that does. Structures are those of
  sections 4.3.12, 4.3.14, 4.3.15, 4.3.16 and 4.5.3 of PKWARE's APPNOTE.
 */
module Zip {
  import opened Wrappers
  import opened Bytes

  // -- fixed-width records ------------------------------------------------

  function Size(widths: seq<nat>): nat
  {
    if widths == [] then 0 else widths[0] + Size(widths[1..])
  }

  /** The fields of a packed record, in order, as `struct` unpacks them; a signature reads as a number. */
  function Unpack(widths: seq<nat>, data: seq<byte>): (fields: seq<nat>)
    requires |data| >= Size(widths)
    ensures |fields| == |widths|
  {
    if widths == [] then []
    else [FromLittleEndian(data[..widths[0]])] + Unpack(widths[1..], data[widths[0]..])
  }

  function Pack(widths: seq<nat>, fields: seq<nat>): (data: seq<byte>)
    requires |fields| == |widths|
    ensures |data| == Size(widths)
    decreases fields
  {
    if widths == [] then [] else LittleEndian(fields[0], widths[0]) + Pack(widths[1..], fields[1..])
  }

  ghost predicate Fit(widths: seq<nat>, fields: seq<nat>)
  {
    |fields| == |widths| && forall i | 0 <= i < |widths| :: fields[i] < Pow256(widths[i])
  }

  lemma {:induction false} PackRoundTrip(widths: seq<nat>, fields: seq<nat>, rest: seq<byte>)
    requires Fit(widths, fields)
    ensures Unpack(widths, Pack(widths, fields) + rest) == fields
  {
    if widths != [] {
      var first, more := LittleEndian(fields[0], widths[0]), Pack(widths[1..], fields[1..]);
      assert (first + more) + rest == first + (more + rest);
      FirstField(widths, fields[0], more + rest);
      FitRest(widths, fields);
      PackRoundTrip(widths[1..], fields[1..], rest);
      assert fields == [fields[0]] + fields[1..];
    }
  }

  lemma FitRest(widths: seq<nat>, fields: seq<nat>)
    requires Fit(widths, fields) && widths != []
    ensures fields[0] < Pow256(widths[0]) && Fit(widths[1..], fields[1..])
  {
    var ws, fs := widths[1..], fields[1..];
    forall i | 0 <= i < |ws| ensures fs[i] < Pow256(ws[i]) {
      assert fs[i] == fields[i + 1] && ws[i] == widths[i + 1];
    }
  }

  lemma FirstField(widths: seq<nat>, value: nat, tail: seq<byte>)
    requires widths != [] && value < Pow256(widths[0]) && |tail| >= Size(widths[1..])
    ensures Unpack(widths, LittleEndian(value, widths[0]) + tail) == [value] + Unpack(widths[1..], tail)
  {
    var first := LittleEndian(value, widths[0]);
    LittleEndianRoundTrip(value, widths[0]);
    assert (first + tail)[..widths[0]] == first && (first + tail)[widths[0]..] == tail;
  }

  const EOCD: seq<nat> := [4, 2, 2, 2, 2, 4, 4, 2]
  const LOCATOR: seq<nat> := [4, 4, 8, 4]
  const EOCD64: seq<nat> := [4, 8, 2, 2, 4, 4, 8, 8, 8, 8]
  const CDFH: seq<nat> := [4, 2, 2, 2, 2, 2, 2, 4, 4, 4, 2, 2, 2, 2, 2, 4, 4]

  const EOCD_SIZE: nat := 22
  const LOCATOR_SIZE: nat := 20
  const EOCD64_SIZE: nat := 56
  const CDFH_SIZE: nat := 46

  const EOCD_SIG: nat := 0x06054b50
  const LOCATOR_SIG: nat := 0x07064b50
  const EOCD64_SIG: nat := 0x06064b50
  const CDFH_SIG: nat := 0x02014b50

  const U16: nat := 0xFFFF
  const U32: nat := 0xFFFFFFFF
  const ZIP64_FIELD: nat := 1

  /** How much of the end is fetched to begin with: enough for locator, record and any comment. */
  const TAIL: nat := EOCD_SIZE + U16 + LOCATOR_SIZE

  lemma {:induction false} SizeAppend(a: seq<nat>, b: seq<nat>)
    ensures Size(a + b) == Size(a) + Size(b)
  {
    if a == [] {
      assert a + b == b;
    } else {
      SizeAppend(a[1..], b);
      assert (a + b)[1..] == a[1..] + b;
    }
  }

  lemma SizeFour(a: nat, b: nat, c: nat, d: nat)
    ensures Size([a, b, c, d]) == a + b + c + d
    ensures Size([c, d]) == c + d
    ensures Size([d]) == d
  {
    assert [a, b, c, d][1..] == [b, c, d] && [b, c, d][1..] == [c, d] && [c, d][1..] == [d] && [d][1..] == [];
    assert Size([c, d]) == c + Size([d]);
  }

  lemma EocdSize()
    ensures Size(EOCD) == EOCD_SIZE && Size(LOCATOR) == LOCATOR_SIZE
  {
    hide Size;
    SizeFour(4, 2, 2, 2);
    SizeFour(2, 4, 4, 2);
    SizeFour(4, 4, 8, 4);
    SizeAppend([4, 2, 2, 2], [2, 4, 4, 2]);
    assert EOCD == [4, 2, 2, 2] + [2, 4, 4, 2];
  }

  lemma Eocd64Size()
    ensures Size(EOCD64) == EOCD64_SIZE
  {
    hide Size;
    var a, b, c := [4, 8, 2, 2], [4, 4, 8, 8], [8, 8];
    SizeFour(4, 8, 2, 2);
    SizeFour(4, 4, 8, 8);
    SizeAppend(a, b);
    SizeAppend(a + b, c);
    assert EOCD64 == a + b + c;
  }

  lemma CdfhSize()
    ensures Size(CDFH) == CDFH_SIZE
  {
    hide Size;
    var a, b, c, d := [4, 2, 2, 2], [2, 2, 2, 4], [4, 4, 2, 2], [2, 2, 2, 4];
    SizeFour(4, 2, 2, 2);
    SizeFour(2, 2, 2, 4);
    SizeFour(4, 4, 2, 2);
    SizeAppend(a, b);
    SizeAppend(c, d);
    SizeAppend(a + b, c + d);
    SizeAppend(a + b + (c + d), [4]);
    assert CDFH == a + b + (c + d) + [4];
  }

  function EocdFields(data: seq<byte>): (f: seq<nat>)
    requires |data| >= EOCD_SIZE
    ensures |f| == 8
  {
    EocdSize();
    Unpack(EOCD, data)
  }

  function LocatorFields(data: seq<byte>): (f: seq<nat>)
    requires |data| >= LOCATOR_SIZE
    ensures |f| == 4
  {
    EocdSize();
    Unpack(LOCATOR, data)
  }

  function Eocd64Fields(data: seq<byte>): (f: seq<nat>)
    requires |data| >= EOCD64_SIZE
    ensures |f| == 10
  {
    Eocd64Size();
    Unpack(EOCD64, data)
  }

  function CdfhFields(data: seq<byte>): (f: seq<nat>)
    requires |data| >= CDFH_SIZE
    ensures |f| == 17
  {
    CdfhSize();
    Unpack(CDFH, data)
  }

  // -- results ------------------------------------------------------------

  datatype Error = NoEocd | BadEocd | NoEocd64 | BadDirectory

  /** What the directory says of a member; names are left undecoded, and the compression is a number. */
  datatype Member = Member(name: seq<byte>, size: nat, compressed: nat, offset: nat, compression: nat, crc: nat,
                           flags: nat)

  /** The member headers' place in the archive, and their number. */
  datatype Located = Located(count: nat, size: nat, offset: nat)

  datatype Directory = Directory(offset: nat, size: nat, count: nat, records: seq<byte>, comment: seq<byte>,
                                 members: seq<Member>)

  // -- values too wide for their header -----------------------------------

  /** Both sizes, the offset and the disk: when each counts as too large for its header, and its width elsewhere. */
  const LIMITS: seq<nat> := [U32, U32, U32, U16]
  const WIDTHS: seq<nat> := [8, 8, 8, 4]

  function Expected(narrow: seq<nat>, limits: seq<nat>, widths: seq<nat>): (n: nat)
    requires |narrow| == |limits| == |widths|
  {
    if narrow == [] then 0
    else (if narrow[0] == limits[0] then widths[0] else 0) + Expected(narrow[1..], limits[1..], widths[1..])
  }

  /** Each sentinel replaced by the next value of the field, in the format's order. */
  function Resolve(narrow: seq<nat>, limits: seq<nat>, widths: seq<nat>, field: seq<byte>): (values: seq<nat>)
    requires |narrow| == |limits| == |widths| && |field| == Expected(narrow, limits, widths)
    ensures |values| == |narrow|
  {
    if narrow == [] then []
    else if narrow[0] == limits[0] then
      [FromLittleEndian(field[..widths[0]])] + Resolve(narrow[1..], limits[1..], widths[1..], field[widths[0]..])
    else [narrow[0]] + Resolve(narrow[1..], limits[1..], widths[1..], field)
  }

  /** The replacement, walking the field with a position. */
  method ReplaceWide(narrow: seq<nat>, limits: seq<nat>, widths: seq<nat>, field: seq<byte>)
    returns (resolved: seq<nat>)
    requires |narrow| == |limits| == |widths| && |field| == Expected(narrow, limits, widths)
    ensures resolved == Resolve(narrow, limits, widths, field)
  {
    resolved := [];
    var pos := 0;
    assert narrow[0..] == narrow && limits[0..] == limits && widths[0..] == widths && field[0..] == field;
    for i := 0 to |narrow|
      invariant 0 <= pos && pos + Expected(narrow[i..], limits[i..], widths[i..]) == |field|
      invariant Resolve(narrow, limits, widths, field) ==
                resolved + Resolve(narrow[i..], limits[i..], widths[i..], field[pos..])
    {
      assert narrow[i..][1..] == narrow[i + 1..] && limits[i..][1..] == limits[i + 1..];
      assert widths[i..][1..] == widths[i + 1..];
      if narrow[i] == limits[i] {
        assert field[pos..][..widths[i]] == field[pos..pos + widths[i]];
        assert field[pos..][widths[i]..] == field[pos + widths[i]..];
        resolved := resolved + [FromLittleEndian(field[pos..pos + widths[i]])];
        pos := pos + widths[i];
      } else {
        resolved := resolved + [narrow[i]];
      }
    }
  }

  /** The body of the ZIP64 extra field, if there is one; a field cut off by the end is taken as far as it goes. */
  function FieldIn(extra: seq<byte>): (field: Option<seq<byte>>)
    decreases |extra|
  {
    if |extra| < 4 then None
    else
      var kind, length := FromLittleEndian(extra[..2]), FromLittleEndian(extra[2..4]);
      if kind == ZIP64_FIELD then Some(extra[4..Min(4 + length, |extra|)])
      else if 4 + length > |extra| then None
      else FieldIn(extra[4 + length..])
  }

  lemma SliceBehind(data: seq<byte>, start: nat, from: nat, to: nat)
    requires from <= to && start + to <= |data|
    ensures data[start..][from..to] == data[start + from..start + to]
  {
    var a, b := data[start..][from..to], data[start + from..start + to];
    forall i | 0 <= i < to - from ensures a[i] == b[i] {
      assert data[start..][from + i] == data[start + (from + i)];
    }
  }

  method FindField(extra: seq<byte>) returns (field: Option<seq<byte>>)
    ensures field == FieldIn(extra)
  {
    hide FromLittleEndian;
    var pos := 0;
    while pos + 4 <= |extra|
      invariant pos <= |extra| ==> FieldIn(extra) == FieldIn(extra[pos..])
      invariant pos > |extra| ==> FieldIn(extra) == None
    {
      var here := extra[pos..];
      var kind := FromLittleEndian(extra[pos..pos + 2]);
      var length := FromLittleEndian(extra[pos + 2..pos + 4]);
      SliceBehind(extra, pos, 0, 2);
      SliceBehind(extra, pos, 2, 4);
      assert here[0..2] == here[..2];
      if kind == ZIP64_FIELD {
        var stop := Min(pos + 4 + length, |extra|);
        SliceBehind(extra, pos, 4, stop - pos);
        return Some(extra[pos + 4..stop]);
      }
      if pos + 4 + length <= |extra| { assert here[4 + length..] == extra[pos + 4 + length..]; }
      pos := pos + 4 + length;
    }
    field := None;
  }

  /** Every sentinel resolved, the narrow values when there is nothing to resolve them from, or an error. */
  function WideValues(extra: seq<byte>, narrow: seq<nat>): (r: Result<seq<nat>, Error>)
    requires |narrow| == 4
    ensures r.Ok? ==> |r.value| == 4
  {
    var expected := Expected(narrow, LIMITS, WIDTHS);
    if expected == 0 then Ok(narrow)
    else
      match FieldIn(extra)
      case None => Ok(narrow)
      case Some(field) =>
        if |field| != expected then Err(BadDirectory) else Ok(Resolve(narrow, LIMITS, WIDTHS, field))
  }

  // -- the directory's records --------------------------------------------

  /** One header at the start of `data`: the member, and how long the record is. */
  function Record(data: seq<byte>, size: nat): (r: Result<(Member, nat), Error>)
    requires |data| >= CDFH_SIZE
    ensures r.Ok? ==> CDFH_SIZE <= r.value.1 <= |data| && r.value.0.offset + r.value.0.compressed <= size
  {
    var f := CdfhFields(data);
    var stop := CDFH_SIZE + f[10] + f[11] + f[12];
    if f[0] != CDFH_SIG || stop > |data| then Err(BadDirectory)
    else
      var name := data[CDFH_SIZE..CDFH_SIZE + f[10]];
      var extra := data[CDFH_SIZE + f[10]..CDFH_SIZE + f[10] + f[11]];
      match WideValues(extra, [f[9], f[8], f[16], f[13]])
      case Err(e) => Err(e)
      case Ok(v) =>
        if v[2] + v[1] > size then Err(BadDirectory)
        else Ok((Member(name, v[0], v[1], v[2], f[4], f[7], f[3]), stop))
  }

  /** Up to `count` headers, stopping where what is left is too short for one. */
  function Parsed(data: seq<byte>, count: nat, size: nat): (r: Result<seq<Member>, Error>)
    decreases count
  {
    if count == 0 || |data| < CDFH_SIZE then Ok([])
    else
      match Record(data, size)
      case Err(e) => Err(e)
      case Ok((m, length)) =>
        match Parsed(data[length..], count - 1, size)
        case Err(e) => Err(e)
        case Ok(more) => Ok([m] + more)
  }

  function Packed(members: seq<Member>): nat
  {
    if members == [] then 0 else members[0].compressed + Packed(members[1..])
  }

  function Checked(data: seq<byte>, count: nat, size: nat): (r: Result<seq<Member>, Error>)
  {
    match Parsed(data, count, size)
    case Err(e) => Err(e)
    case Ok(found) => if Packed(found) > size then Err(BadDirectory) else Ok(found)
  }

  lemma {:induction false} PackedSnoc(members: seq<Member>, m: Member)
    ensures Packed(members + [m]) == Packed(members) + m.compressed
  {
    if members == [] {
      assert [m][1..] == [];
    } else {
      PackedSnoc(members[1..], m);
      assert (members + [m])[1..] == members[1..] + [m];
    }
  }

  /** What `Parsed` still has to give, with `found` already in hand. */
  ghost predicate Ahead(data: seq<byte>, count: nat, size: nat, n: nat, pos: nat, found: seq<Member>)
  {
    && n <= count && pos <= |data|
    && Parsed(data, count, size) ==
       match Parsed(data[pos..], count - n, size)
       case Err(e) => Err(e)
       case Ok(more) => Ok(found + more)
  }

  lemma AheadOne(data: seq<byte>, count: nat, size: nat, n: nat, pos: nat, found: seq<Member>)
    requires Ahead(data, count, size, n, pos, found) && n < count && |data| - pos >= CDFH_SIZE
    ensures match Record(data[pos..], size)
            case Err(e) => Parsed(data, count, size) == Err(e)
            case Ok((m, length)) => Ahead(data, count, size, n + 1, pos + length, found + [m])
  {
    var here := data[pos..];
    if Record(here, size).Ok? {
      var (m, length) := Record(here, size).value;
      assert here[length..] == data[pos + length..];
      var rest := Parsed(data[pos + length..], count - n - 1, size);
      if rest.Ok? { assert found + ([m] + rest.value) == found + [m] + rest.value; }
    }
  }

  /** The records, walked with a position, their compressed sizes totalled on the way. */
  method Records(data: seq<byte>, count: nat, size: nat) returns (r: Result<seq<Member>, Error>)
    ensures r == Checked(data, count, size)
  {
    var found: seq<Member> := [];
    var packed, pos, n := 0, 0, 0;
    assert data[0..] == data;
    ghost var whole := Parsed(data, count, size);
    assert whole.Ok? ==> [] + whole.value == whole.value;
    while n < count && |data| - pos >= CDFH_SIZE
      invariant Ahead(data, count, size, n, pos, found) && packed == Packed(found)
      decreases count - n
    {
      AheadOne(data, count, size, n, pos, found);
      var one := Record(data[pos..], size);
      if one.Err? { return Err(one.error); }
      var (m, length) := one.value;
      PackedSnoc(found, m);
      found := found + [m];
      packed := packed + m.compressed;
      pos := pos + length;
      n := n + 1;
    }
    assert found + [] == found;
    if packed > size { return Err(BadDirectory); }
    r := Ok(found);
  }

  // -- finding the directory ----------------------------------------------

  predicate SigAt(data: seq<byte>, at: int, sig: nat)
  {
    0 <= at && at + 4 <= |data| && FromLittleEndian(data[at..at + 4]) == sig
  }

  /** A signature in the rest of some bytes is where it was, counted from there. */
  lemma SigFrom(data: seq<byte>, start: nat, at: nat, sig: nat)
    requires start <= |data|
    ensures SigAt(data[start..], at, sig) == SigAt(data, start + at, sig)
  {
    if start + at + 4 <= |data| { assert data[start..][at..at + 4] == data[start + at..start + at + 4]; }
  }

  /** The last place, from `at` down, where a record's signature stands. */
  function LastEocd(tail: seq<byte>, at: int): (found: int)
    ensures found == -1 || (0 <= found <= at && SigAt(tail, found, EOCD_SIG))
    ensures forall k | found < k <= at :: !SigAt(tail, k, EOCD_SIG)
    decreases at + 1
  {
    if at < 0 then -1 else if SigAt(tail, at, EOCD_SIG) then at else LastEocd(tail, at - 1)
  }

  /**
    What the wider record says, if a locator leads to one from just before `at`. A locator
    that is the first thing fetched is not looked at.
   */
  function Zip64(archive: seq<byte>, tail: seq<byte>, start: nat, at: nat): (r: Result<Option<Located>, Error>)
    requires at <= |tail|
  {
    var locator := at - LOCATOR_SIZE;
    if locator <= 0 || !SigAt(tail, locator, LOCATOR_SIG) then Ok(None)
    else
      var offset := LocatorFields(tail[locator..])[2];
      var record := if start > offset then Window(archive, offset, EOCD64_SIZE)
                    else tail[Min(offset - start, |tail|)..];
      if |record| < EOCD64_SIZE || !SigAt(record, 0, EOCD64_SIG) then Err(NoEocd64)
      else
        var f := Eocd64Fields(record);
        Ok(Some(Located(f[7], f[8], f[9])))
  }

  /** Where the directory is, from the record at `at` or the ZIP64 one, and the archive's comment. */
  function Settle(archive: seq<byte>, start: nat, at: nat): (r: Result<(Located, seq<byte>), Error>)
    requires start <= |archive| && start + at + EOCD_SIZE <= |archive|
  {
    var tail := archive[start..];
    var f := EocdFields(tail[at..]);
    if EOCD_SIZE + f[7] > |tail| - at then Err(BadEocd)
    else
      match Zip64(archive, tail, start, at)
      case Err(e) => Err(e)
      case Ok(wide) =>
        Ok((if wide.Some? then wide.value else Located(f[4], f[5], f[6]),
            tail[at + EOCD_SIZE..at + EOCD_SIZE + f[7]]))
  }

  /** The directory itself: out of the first read when that was the whole archive, else read on its own. */
  function Contents(archive: seq<byte>, start: nat, located: Located, comment: seq<byte>): (r: Result<Directory, Error>)
  {
    if located.offset + located.size > |archive| then Err(BadEocd)
    else
      var records := if start == 0 then archive[located.offset..located.offset + located.size]
                     else Window(archive, located.offset, located.size);
      match Checked(records, located.count, |archive|)
      case Err(e) => Err(e)
      case Ok(found) => Ok(Directory(located.offset, located.size, located.count, records, comment, found))
  }

  /** The archive's central directory, its records exactly as they stand. */
  function ReadDirectory(archive: seq<byte>): (r: Result<Directory, Error>)
  {
    if archive == [] then Ok(Directory(0, 0, 0, [], [], []))
    else
      var start := |archive| - Min(|archive|, TAIL);
      var tail := archive[start..];
      var at := LastEocd(tail, |tail| - EOCD_SIZE);
      if at < 0 then Err(NoEocd)
      else
        match Settle(archive, start, at)
        case Err(e) => Err(e)
        case Ok((located, comment)) => Contents(archive, start, located, comment)
  }

  // -- what any accepted archive satisfies --------------------------------

  lemma {:induction false} ParsedInside(data: seq<byte>, count: nat, size: nat, i: nat)
    requires Parsed(data, count, size).Ok? && i < |Parsed(data, count, size).value|
    ensures |Parsed(data, count, size).value| <= count
    ensures var m := Parsed(data, count, size).value[i]; m.offset + m.compressed <= size
    decreases count
  {
    var (m, length) := Record(data, size).value;
    var rest := Parsed(data[length..], count - 1, size).value;
    if i > 0 { ParsedInside(data[length..], count - 1, size, i - 1); }
    else if rest != [] { ParsedInside(data[length..], count - 1, size, 0); }
  }

  /**
    Whatever the bytes: an archive that is accepted has its directory and every
    one of its members inside it, no more members than it declares, and their
    compressed sizes add up to no more than its length.
   */
  lemma AcceptedIsInside(archive: seq<byte>)
    requires ReadDirectory(archive).Ok?
    ensures var d := ReadDirectory(archive).value;
            && d.offset + d.size <= |archive| && d.records == archive[d.offset..d.offset + d.size]
            && |d.members| <= d.count && Packed(d.members) <= |archive|
            && (forall i | 0 <= i < |d.members| :: d.members[i].offset + d.members[i].compressed <= |archive|)
  {
    hide Parsed, LastEocd, SigAt, EocdFields, Zip64;
    if archive != [] {
      var d := ReadDirectory(archive).value;
      forall i | 0 <= i < |d.members|
        ensures |d.members| <= d.count && d.members[i].offset + d.members[i].compressed <= |archive|
      {
        ParsedInside(d.records, d.count, |archive|, i);
      }
      if d.members != [] { assert d.members[0].offset + d.members[0].compressed <= |archive|; }
    }
  }

  // -- one member's data --------------------------------------------------

  const LFH: seq<nat> := [4, 2, 2, 2, 2, 2, 4, 4, 4, 2, 2]
  const LFH_SIZE: nat := 30
  const LFH_SIG: nat := 0x04034b50

  lemma LfhSize()
    ensures Size(LFH) == LFH_SIZE
  {
    hide Size;
    var a, b, c := [4, 2, 2, 2], [2, 2, 4, 4], [2, 2];
    SizeFour(4, 2, 2, 2);
    SizeFour(2, 2, 4, 4);
    SizeFour(2, 2, 2, 2);
    SizeFour(2, 2, 2, 4);
    SizeAppend(a, b);
    SizeAppend([4], c);
    SizeAppend(a + b, [4] + c);
    assert LFH == a + b + ([4] + c);
  }

  datatype Found = Absent | Damaged(error: Error) | At(member: Member, data: nat)

  function Named(members: seq<Member>, name: seq<byte>): (m: Option<Member>)
  {
    if members == [] then None else if members[0].name == name then Some(members[0]) else Named(members[1..], name)
  }

  /** The first member of that name, and where its compressed bytes begin, from its local header. */
  function FindMember(archive: seq<byte>, name: seq<byte>): (r: Found)
  {
    match ReadDirectory(archive)
    case Err(e) => Damaged(e)
    case Ok(d) =>
      match Named(d.members, name)
      case None => Absent
      case Some(m) =>
        var header := Window(archive, m.offset, LFH_SIZE);
        if |header| != LFH_SIZE then Damaged(BadDirectory)
        else
          LfhSize();
          var f := Unpack(LFH, header);
          var data := m.offset + LFH_SIZE + f[9] + f[10];
          if f[0] != LFH_SIG || f[2] != m.flags || f[3] != m.compression || data + m.compressed > |archive|
          then Damaged(BadDirectory) else At(m, data)
  }

  lemma {:induction false} NamedIsFirst(members: seq<Member>, name: seq<byte>)
    ensures Named(members, name).None? <==> forall i | 0 <= i < |members| :: members[i].name != name
    ensures Named(members, name).Some? ==>
              exists i | 0 <= i < |members| :: members[i] == Named(members, name).value && members[i].name == name
                                               && forall k | 0 <= k < i :: members[k].name != name
  {
    if members != [] && members[0].name != name {
      NamedIsFirst(members[1..], name);
      if Named(members, name).Some? {
        var i :| 0 <= i < |members[1..]| && members[1..][i] == Named(members[1..], name).value
                 && members[1..][i].name == name && forall k | 0 <= k < i :: members[1..][k].name != name;
        assert members[i + 1] == members[1..][i];
        assert forall k | 0 <= k < i + 1 :: k == 0 || members[k] == members[1..][k - 1];
      } else {
        assert forall i | 0 <= i < |members| :: i == 0 || members[i] == members[1..][i - 1];
      }
    }
  }

  /**
    A member that is found is in the directory under that name, and its bytes are inside the
    archive, past its header.
   */
  lemma MemberIsInside(archive: seq<byte>, name: seq<byte>)
    requires FindMember(archive, name).At?
    ensures var r := FindMember(archive, name);
            && ReadDirectory(archive).Ok? && r.member in ReadDirectory(archive).value.members && r.member.name == name
            && r.member.offset + LFH_SIZE <= r.data && r.data + r.member.compressed <= |archive|
  {
    NamedIsFirst(ReadDirectory(archive).value.members, name);
  }
}
