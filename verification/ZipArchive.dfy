/** Where a writer puts the directory of an archive, and the proof that a reader finds it there. */
module ZipArchive {
  import opened Wrappers
  import opened Bytes
  import opened Zip
  import E = ZipEncode

  /**
    An archive in its parts: what stands before the directory, the directory's
    records and how many they are, the ZIP64 record and its locator (both empty
    without ZIP64), the end record, and the comment.
   */
  datatype Archive = Archive(
    prefix: seq<byte>, records: seq<byte>, count: nat,
    wide: seq<byte>, pointer: seq<byte>, end: seq<byte>, comment: seq<byte>)
  {
    /** Everything before the end record. */
    function Body(): seq<byte> { prefix + records + wide + pointer }

    function Bytes(): seq<byte> { Body() + (end + comment) }

    predicate Zip64?() { wide != [] }

    function Located(): Zip.Located { Zip.Located(count, |records|, |prefix|) }

    /** Where the first read starts. */
    function TailStart(): nat { |Bytes()| - Min(|Bytes()|, TAIL) }

    /** Where the ZIP64 locator stands, or would. */
    function LocatorAt(): int { |Body()| - LOCATOR_SIZE }

    /** Each part says what it should, as the reader reads it. */
    ghost predicate Sound()
    {
      && |comment| <= U16 && EndSays(end, |comment|, Located(), wide == [])
      && (if wide == [] then pointer == [] else WideSays(wide, pointer, Located()))
    }

    /** The signature does not turn up again where a record could start, inside the comment. */
    ghost predicate NoLaterRecord()
    {
      forall k | |Body()| < k <= |Body()| + |comment| :: !SigAt(Bytes(), k, EOCD_SIG)
    }

    /** Nothing that is not a locator reads as one. */
    ghost predicate NoStrayLocator()
    {
      wide == [] && LocatorAt() > TailStart() ==> !SigAt(Bytes(), LocatorAt(), LOCATOR_SIG)
    }
  }

  /** The end record gives the comment's length and, when nothing else does, the directory. */
  ghost predicate EndSays(end: seq<byte>, comment: nat, l: Zip.Located, alone: bool)
  {
    && |end| == EOCD_SIZE && SigAt(end, 0, EOCD_SIG) && EocdFields(end)[7] == comment
    && (alone ==> Zip.Located(EocdFields(end)[4], EocdFields(end)[5], EocdFields(end)[6]) == l)
  }

  /** The ZIP64 record gives the directory, and the locator points to the record, right behind the directory. */
  ghost predicate WideSays(wide: seq<byte>, pointer: seq<byte>, l: Zip.Located)
  {
    && |pointer| == LOCATOR_SIZE && SigAt(pointer, 0, LOCATOR_SIG) && LocatorFields(pointer)[2] == l.offset + l.size
    && |wide| == EOCD64_SIZE && SigAt(wide, 0, EOCD64_SIG)
    && Zip.Located(Eocd64Fields(wide)[7], Eocd64Fields(wide)[8], Eocd64Fields(wide)[9]) == l
  }

  // -- reading what is at the front of some bytes -------------------------

  /** A record's fields are in its own bytes, whatever follows them. */
  lemma {:induction false} UnpackFront(widths: seq<nat>, data: seq<byte>, rest: seq<byte>)
    requires |data| >= Size(widths)
    ensures Unpack(widths, data + rest) == Unpack(widths, data)
    decreases widths
  {
    if widths != [] {
      var w := widths[0];
      assert (data + rest)[..w] == data[..w] && (data + rest)[w..] == data[w..] + rest;
      UnpackFront(widths[1..], data[w..], rest);
    }
  }

  lemma FieldsFront(data: seq<byte>, rest: seq<byte>)
    ensures |data| >= EOCD_SIZE ==> EocdFields(data + rest) == EocdFields(data)
    ensures |data| >= LOCATOR_SIZE ==> LocatorFields(data + rest) == LocatorFields(data)
    ensures |data| >= EOCD64_SIZE ==> Eocd64Fields(data + rest) == Eocd64Fields(data)
  {
    EocdSize();
    Eocd64Size();
    if |data| >= EOCD_SIZE { UnpackFront(EOCD, data, rest); }
    if |data| >= LOCATOR_SIZE { UnpackFront(LOCATOR, data, rest); }
    if |data| >= EOCD64_SIZE { UnpackFront(EOCD64, data, rest); }
  }

  lemma SigFront(data: seq<byte>, rest: seq<byte>, sig: nat)
    requires |data| >= 4
    ensures SigAt(data + rest, 0, sig) == SigAt(data, 0, sig)
  {
    assert (data + rest)[0..4] == data[0..4];
  }

  /** The search for the record ends at the real one. */
  lemma {:induction false} LastEocdIs(tail: seq<byte>, from: int, at: nat)
    requires at <= from && SigAt(tail, at, EOCD_SIG) && forall k | at < k <= from :: !SigAt(tail, k, EOCD_SIG)
    ensures LastEocd(tail, from) == at
    decreases from
  {
    if at < from { LastEocdIs(tail, from - 1, at); }
  }

  /** The archive from its ZIP64 record on, from its locator on, and from its end record on. */
  lemma Parts(a: Archive)
    ensures var data, r := a.Bytes(), |a.prefix| + |a.records|;
            && |data| == |a.Body()| + |a.end| + |a.comment| && r + |a.wide| + |a.pointer| == |a.Body()|
            && data[r..] == a.wide + (a.pointer + (a.end + a.comment))
            && data[r + |a.wide|..] == a.pointer + (a.end + a.comment)
            && data[|a.Body()|..] == a.end + a.comment
            && data[|a.prefix|..r] == a.records
  {
  }

  // -- the reader's steps -------------------------------------------------

  /** The end record is found in the first read, and reads back. */
  lemma EndFound(a: Archive)
    requires a.Sound() && a.NoLaterRecord()
    ensures a.TailStart() <= |a.Body()|
    ensures var tail, at := a.Bytes()[a.TailStart()..], |a.Body()| - a.TailStart();
            && LastEocd(tail, |tail| - EOCD_SIZE) == at && tail[at..] == a.end + a.comment
            && EocdFields(tail[at..]) == EocdFields(a.end)
  {
    Parts(a);
    var data, start := a.Bytes(), a.TailStart();
    var tail, at := data[start..], |a.Body()| - start;
    assert tail[at..] == data[|a.Body()|..];
    FieldsFront(a.end, a.comment);
    SigFront(a.end, a.comment, EOCD_SIG);
    SigFrom(tail, at, 0, EOCD_SIG);
    forall k | at < k <= |tail| - EOCD_SIZE ensures !SigAt(tail, k, EOCD_SIG) { SigFrom(data, start, k, EOCD_SIG); }
    LastEocdIs(tail, |tail| - EOCD_SIZE, at);
  }

  /** The ZIP64 record as it is fetched: a read of its own, or a stretch of the first. */
  function Fetched(data: seq<byte>, start: nat, r: nat): seq<byte>
    requires start <= |data|
  {
    if start > r then Window(data, r, EOCD64_SIZE) else data[start..][Min(r - start, |data[start..]|)..]
  }

  lemma FetchedIs(data: seq<byte>, start: nat, r: nat, wide: seq<byte>, rest: seq<byte>)
    requires start <= |data| && r <= |data| && data[r..] == wide + rest && |wide| == EOCD64_SIZE
    ensures Fetched(data, start, r) == if start > r then wide else wide + rest
  {
    if start > r {
      assert Window(data, r, EOCD64_SIZE) == data[r..][..EOCD64_SIZE];
    } else {
      assert data[start..][r - start..] == data[r..];
    }
  }

  lemma FetchedReads(a: Archive)
    requires a.Sound() && a.Zip64?()
    ensures var record := Fetched(a.Bytes(), a.TailStart(), |a.prefix| + |a.records|);
            |record| >= EOCD64_SIZE && SigAt(record, 0, EOCD64_SIG) && Eocd64Fields(record) == Eocd64Fields(a.wide)
  {
    hide EocdFields, Eocd64Fields, LocatorFields, Fetched, Window;
    Parts(a);
    var rest := a.pointer + (a.end + a.comment);
    FetchedIs(a.Bytes(), a.TailStart(), |a.prefix| + |a.records|, a.wide, rest);
    FieldsFront(a.wide, rest);
    SigFront(a.wide, rest, EOCD64_SIG);
  }

  lemma LocatorReads(a: Archive)
    requires a.Sound() && a.Zip64?() && a.TailStart() < a.LocatorAt()
    ensures var tail, lo := a.Bytes()[a.TailStart()..], a.LocatorAt() - a.TailStart();
            && lo + LOCATOR_SIZE <= |tail| && SigAt(tail, lo, LOCATOR_SIG)
            && LocatorFields(tail[lo..]) == LocatorFields(a.pointer)
  {
    Parts(a);
    var data, start := a.Bytes(), a.TailStart();
    var tail, lo := data[start..], a.LocatorAt() - start;
    assert tail[lo..] == data[a.LocatorAt()..];
    FieldsFront(a.pointer, a.end + a.comment);
    SigFront(a.pointer, a.end + a.comment, LOCATOR_SIG);
    SigFrom(tail, lo, 0, LOCATOR_SIG);
  }

  ghost predicate Yields<T>(r: Result<T, Error>, value: T) { r.Ok? && r.value == value }

  lemma Zip64Is(data: seq<byte>, start: nat, lo: nat, r: nat, l: Zip.Located)
    requires start <= |data| && 0 < lo && lo + LOCATOR_SIZE <= |data[start..]|
    requires SigAt(data[start..], lo, LOCATOR_SIG) && LocatorFields(data[start..][lo..])[2] == r
    requires var record := Fetched(data, start, r);
             && |record| >= EOCD64_SIZE && SigAt(record, 0, EOCD64_SIG)
             && l == Located(Eocd64Fields(record)[7], Eocd64Fields(record)[8], Eocd64Fields(record)[9])
    ensures Yields(Zip64(data, data[start..], start, lo + LOCATOR_SIZE), Some(l))
  {
  }

  lemma Followed(a: Archive, data: seq<byte>, start: nat, lo: nat)
    requires a.Sound() && a.Zip64?() && data == a.Bytes()
    requires start == a.TailStart() && 0 < lo && start + lo == a.LocatorAt()
    ensures lo + LOCATOR_SIZE <= |data[start..]|
    ensures Yields(Zip64(data, data[start..], start, lo + LOCATOR_SIZE), Some(a.Located()))
  {
    hide Zip64, LocatorFields, Eocd64Fields, EndSays, Fetched, SigAt;
    LocatorReads(a);
    FetchedReads(a);
    Zip64Is(data, start, lo, |a.prefix| + |a.records|, a.Located());
  }

  lemma PassedOver(data: seq<byte>, tail: seq<byte>, start: nat)
    requires LOCATOR_SIZE <= |tail|
    ensures Yields(Zip64(data, tail, start, LOCATOR_SIZE), None)
  {
  }

  /** The ZIP64 locator is followed exactly when it stands beyond the very start of the first read. */
  lemma LocatorFollowed(a: Archive)
    requires a.Sound() && a.Zip64?()
    ensures a.TailStart() <= a.LocatorAt()
    ensures Yields(Zip64(a.Bytes(), a.Bytes()[a.TailStart()..], a.TailStart(), |a.Body()| - a.TailStart()),
                   if a.TailStart() < a.LocatorAt() then Some(a.Located()) else None)
  {
    Parts(a);
    var lo := a.LocatorAt() - a.TailStart();
    assert |a.Body()| - a.TailStart() == lo + LOCATOR_SIZE;
    if lo > 0 { Followed(a, a.Bytes(), a.TailStart(), lo); }
    else { PassedOver(a.Bytes(), a.Bytes()[a.TailStart()..], a.TailStart()); }
  }

  /** It stands there only in an archive longer than that read, with a comment of the full 65535 bytes. */
  lemma LocatorBeyondStart(a: Archive)
    requires a.Sound() && a.Zip64?()
    ensures a.TailStart() < a.LocatorAt() <==> |a.Bytes()| <= TAIL || |a.comment| < U16
  {
    Parts(a);
  }

  /** Without ZIP64 there is no locator to follow. */
  lemma NoLocator(a: Archive)
    requires a.Sound() && !a.Zip64?() && a.NoStrayLocator() && a.TailStart() <= |a.Body()|
    ensures Yields(Zip64(a.Bytes(), a.Bytes()[a.TailStart()..], a.TailStart(), |a.Body()| - a.TailStart()), None)
  {
    Parts(a);
    if a.LocatorAt() > a.TailStart() { SigFrom(a.Bytes(), a.TailStart(), a.LocatorAt() - a.TailStart(), LOCATOR_SIG); }
  }

  /** What the reader takes the directory to be: the true one, or the narrow fields when it passes the locator over. */
  ghost function Taken(a: Archive): Zip.Located
    requires |a.end| == EOCD_SIZE
  {
    if a.Zip64?() && a.TailStart() == a.LocatorAt()
    then Located(EocdFields(a.end)[4], EocdFields(a.end)[5], EocdFields(a.end)[6])
    else a.Located()
  }

  lemma SettleIs(data: seq<byte>, start: nat, at: nat, end: seq<byte>, comment: seq<byte>, wide: Option<Zip.Located>,
                 l: Zip.Located)
    requires start <= |data| && start + at + EOCD_SIZE + |comment| == |data| && |end| == EOCD_SIZE
    requires EocdFields(data[start..][at..]) == EocdFields(end) && EocdFields(end)[7] == |comment|
    requires comment == data[start..][at..][EOCD_SIZE..] && Yields(Zip64(data, data[start..], start, at), wide)
    requires l == if wide.Some? then wide.value
                  else Located(EocdFields(end)[4], EocdFields(end)[5], EocdFields(end)[6])
    ensures Yields(Settle(data, start, at), (l, comment))
  {
    assert data[start..][at + EOCD_SIZE..at + EOCD_SIZE + |comment|] == comment;
  }

  /** What the locator, if it is followed, leads to. */
  function WideOf(a: Archive): Option<Zip.Located>
  {
    if a.Zip64?() && a.TailStart() < a.LocatorAt() then Some(a.Located()) else None
  }

  lemma WideIs(a: Archive, data: seq<byte>, start: nat, at: nat)
    requires a.Sound() && a.NoStrayLocator() && data == a.Bytes() && start == a.TailStart() && start + at == |a.Body()|
    ensures start + at <= |data| && Yields(Zip64(data, data[start..], start, at), WideOf(a))
  {
    Parts(a);
    if a.Zip64?() { LocatorFollowed(a); } else { NoLocator(a); }
  }

  lemma EndIs(a: Archive, data: seq<byte>, start: nat, at: nat)
    requires a.Sound() && a.NoLaterRecord() && data == a.Bytes() && start == a.TailStart() && start + at == |a.Body()|
    ensures start + at + EOCD_SIZE + |a.comment| == |data|
    ensures LastEocd(data[start..], |data[start..]| - EOCD_SIZE) == at
    ensures EocdFields(data[start..][at..]) == EocdFields(a.end) && a.comment == data[start..][at..][EOCD_SIZE..]
  {
    Parts(a);
    EndFound(a);
    assert (a.end + a.comment)[EOCD_SIZE..] == a.comment;
  }

  lemma TakenIs(a: Archive)
    requires a.Sound()
    ensures Taken(a) == if WideOf(a).Some? then WideOf(a).value
                        else Located(EocdFields(a.end)[4], EocdFields(a.end)[5], EocdFields(a.end)[6])
  {
    Parts(a);
  }

  lemma Settles(a: Archive, data: seq<byte>, start: nat, at: nat)
    requires a.Sound() && a.NoLaterRecord() && a.NoStrayLocator()
    requires data == a.Bytes() && start == a.TailStart() && start + at == |a.Body()|
    ensures start + at + EOCD_SIZE <= |data| && Yields(Settle(data, start, at), (Taken(a), a.comment))
  {
    EndIs(a, data, start, at);
    WideIs(a, data, start, at);
    TakenIs(a);
    SettleIs(data, start, at, a.end, a.comment, WideOf(a), Taken(a));
  }

  lemma ContentsIs(data: seq<byte>, start: nat, l: Zip.Located, records: seq<byte>, comment: seq<byte>,
                   members: seq<Member>)
    requires l.offset + l.size <= |data| && records == data[l.offset..l.offset + l.size]
    requires Yields(Checked(records, l.count, |data|), members)
    ensures Yields(Contents(data, start, l, comment), Directory(l.offset, l.size, l.count, records, comment, members))
  {
    assert Window(data, l.offset, l.size) == records;
  }

  lemma OpensAt(data: seq<byte>, at: nat, l: Zip.Located, comment: seq<byte>)
    requires data != []
    requires var start := |data| - Min(|data|, TAIL);
             && start + at + EOCD_SIZE <= |data| && LastEocd(data[start..], |data[start..]| - EOCD_SIZE) == at
             && Yields(Settle(data, start, at), (l, comment))
    ensures ReadDirectory(data) == Contents(data, |data| - Min(|data|, TAIL), l, comment)
  {
  }

  /** Any sound archive is opened at the directory the reader takes it to have. */
  lemma Opens(a: Archive, data: seq<byte>)
    requires a.Sound() && a.NoLaterRecord() && a.NoStrayLocator() && data == a.Bytes()
    ensures ReadDirectory(data) == Contents(data, a.TailStart(), Taken(a), a.comment)
  {
    Parts(a);
    EndFound(a);
    var at := |a.Body()| - a.TailStart();
    Settles(a, data, a.TailStart(), at);
    EndIs(a, data, a.TailStart(), at);
    OpensAt(data, at, Taken(a), a.comment);
  }

  lemma OpenedHolds(data: seq<byte>, start: nat, l: Zip.Located, records: seq<byte>, comment: seq<byte>,
                    members: seq<Member>)
    requires ReadDirectory(data) == Contents(data, start, l, comment)
    requires l.offset + l.size <= |data| && records == data[l.offset..l.offset + l.size]
    requires Yields(Checked(records, l.count, |data|), members)
    ensures Yields(ReadDirectory(data), Directory(l.offset, l.size, l.count, records, comment, members))
  {
    ContentsIs(data, start, l, records, comment, members);
  }

  /** An archive whose records are in order reads back as what it holds, once its directory is found. */
  lemma ReadsBack(a: Archive, data: seq<byte>, members: seq<Member>)
    requires data == a.Bytes() && ReadDirectory(data) == Contents(data, a.TailStart(), a.Located(), a.comment)
    requires Yields(Checked(a.records, a.count, |data|), members)
    ensures Yields(ReadDirectory(data), Directory(|a.prefix|, |a.records|, a.count, a.records, a.comment, members))
  {
    hide ReadDirectory, Contents, Checked;
    assert a.records == data[|a.prefix|..|a.prefix| + |a.records|];
    OpenedHolds(data, a.TailStart(), a.Located(), a.records, a.comment, members);
  }

  // -- the writer ---------------------------------------------------------

  /** A packed record reads back, its signature first. */
  lemma PackedReads(widths: seq<nat>, fields: seq<nat>)
    requires Fit(widths, fields) && widths != [] && widths[0] == 4
    ensures Unpack(widths, Pack(widths, fields)) == fields && SigAt(Pack(widths, fields), 0, fields[0])
  {
    var data := Pack(widths, fields);
    PackRoundTrip(widths, fields, []);
    assert data + [] == data;
    assert data[0..4] == data[..widths[0]];
  }

  function EndFields(l: Zip.Located, comment: nat): (f: seq<nat>)
    ensures |f| == 8
  {
    [EOCD_SIG, 0, 0, Min(l.count, U16), Min(l.count, U16), Min(l.size, U32), Min(l.offset, U32), comment]
  }

  function EndBytes(l: Zip.Located, comment: nat): seq<byte> { Pack(EOCD, EndFields(l, comment)) }

  lemma EndReads(l: Zip.Located, comment: nat)
    requires comment <= U16
    ensures var end := EndBytes(l, comment);
            |end| == EOCD_SIZE && SigAt(end, 0, EOCD_SIG) && EocdFields(end) == EndFields(l, comment)
  {
    EocdSize();
    PowersOf256();
    PackedReads(EOCD, EndFields(l, comment));
  }

  function PointerFields(at: nat): (f: seq<nat>)
    ensures |f| == 4
  {
    [LOCATOR_SIG, 0, at, 1]
  }

  function PointerBytes(at: nat): seq<byte> { Pack(LOCATOR, PointerFields(at)) }

  lemma PointerReads(at: nat)
    requires at < Pow256(8)
    ensures var pointer := PointerBytes(at);
            |pointer| == LOCATOR_SIZE && SigAt(pointer, 0, LOCATOR_SIG) && LocatorFields(pointer) == PointerFields(at)
  {
    EocdSize();
    PowersOf256();
    PackedReads(LOCATOR, PointerFields(at));
  }

  /** The fields of the ZIP64 record; `made` and `need` are its version fields. */
  function WideFields(l: Zip.Located, made: nat, need: nat): (f: seq<nat>)
    ensures |f| == 10
  {
    [EOCD64_SIG, 44, made, need, 0, 0, l.count, l.count, l.size, l.offset]
  }

  function WideBytes(l: Zip.Located, made: nat, need: nat): seq<byte> { Pack(EOCD64, WideFields(l, made, need)) }

  lemma WideReads(l: Zip.Located, made: nat, need: nat)
    requires made <= U16 && need <= U16 && l.count < Pow256(8) && l.size < Pow256(8) && l.offset < Pow256(8)
    ensures var wide := WideBytes(l, made, need);
            |wide| == EOCD64_SIZE && SigAt(wide, 0, EOCD64_SIG) && Eocd64Fields(wide) == WideFields(l, made, need)
  {
    Eocd64Size();
    PowersOf256();
    PackedReads(EOCD64, WideFields(l, made, need));
  }

  /** How a writer lays out an archive around its records. */
  function LaidOut(prefix: seq<byte>, records: seq<byte>, count: nat, comment: seq<byte>, zip64: bool, made: nat,
                   need: nat): (a: Archive)
  {
    var l := Located(count, |records|, |prefix|);
    Archive(prefix, records, count,
            if zip64 then WideBytes(l, made, need) else [],
            if zip64 then PointerBytes(l.offset + l.size) else [],
            EndBytes(l, |comment|), comment)
  }

  /** What the format can hold; without ZIP64 the counts must fit the narrow fields. */
  ghost predicate Holdable(l: Zip.Located, comment: nat, zip64: bool, made: nat, need: nat)
  {
    && comment <= U16 && made <= U16 && need <= U16 && l.offset + l.size < Pow256(8) && l.count < Pow256(8)
    && (!zip64 ==> l.count <= U16 && l.size <= U32 && l.offset <= U32)
  }

  lemma EndIsRight(l: Zip.Located, comment: nat, zip64: bool, made: nat, need: nat)
    requires Holdable(l, comment, zip64, made, need)
    ensures EndSays(EndBytes(l, comment), comment, l, !zip64)
  {
    EndReads(l, comment);
  }

  lemma WideIsRight(l: Zip.Located, comment: nat, made: nat, need: nat)
    requires Holdable(l, comment, true, made, need)
    ensures WideSays(WideBytes(l, made, need), PointerBytes(l.offset + l.size), l) && WideBytes(l, made, need) != []
  {
    PointerReads(l.offset + l.size);
    WideReads(l, made, need);
  }

  lemma LaidOutIsSound(prefix: seq<byte>, records: seq<byte>, count: nat, comment: seq<byte>, zip64: bool, made: nat,
                       need: nat)
    requires Holdable(Located(count, |records|, |prefix|), |comment|, zip64, made, need)
    ensures var a := LaidOut(prefix, records, count, comment, zip64, made, need); a.Sound() && (a.Zip64?() <==> zip64)
  {
    hide EndSays, WideSays, EndBytes, WideBytes, PointerBytes;
    var l := Located(count, |records|, |prefix|);
    EndIsRight(l, |comment|, zip64, made, need);
    if zip64 { WideIsRight(l, |comment|, made, need); }
  }

  /** The archive of these entries. */
  function Written(prefix: seq<byte>, entries: seq<E.Entry>, comment: seq<byte>, zip64: bool, made: nat,
                   need: nat): (a: Archive)
  {
    LaidOut(prefix, E.EncodeAll(entries), |entries|, comment, zip64, made, need)
  }

  /** The writer's archive can be written, and nothing in it reads as what it is not. */
  ghost predicate Proper(a: Archive, zip64: bool, made: nat, need: nat)
  {
    Holdable(a.Located(), |a.comment|, zip64, made, need) && a.NoLaterRecord() && a.NoStrayLocator()
  }

  /**
    The reader learns where the directory is: the ZIP64 locator does not stand at
    the very start of the first read, or the end record says it all by itself.
   */
  ghost predicate Told(a: Archive, zip64: bool)
  {
    zip64 && |a.Bytes()| > TAIL && |a.comment| == U16 ==>
      a.count <= U16 && |a.records| <= U32 && |a.prefix| <= U32
  }

  lemma ProperOpens(prefix: seq<byte>, records: seq<byte>, count: nat, comment: seq<byte>, zip64: bool, made: nat,
                    need: nat, a: Archive)
    requires a == LaidOut(prefix, records, count, comment, zip64, made, need) && Proper(a, zip64, made, need)
    ensures |a.end| == EOCD_SIZE && ReadDirectory(a.Bytes()) == Contents(a.Bytes(), a.TailStart(), Taken(a), a.comment)
  {
    hide ReadDirectory, Contents, Taken, EndBytes, WideBytes, PointerBytes;
    LaidOutIsSound(prefix, records, count, comment, zip64, made, need);
    Opens(a, a.Bytes());
  }

  /** Told, the reader takes the directory to be where it is; otherwise it does not. */
  lemma TakenWhenTold(prefix: seq<byte>, records: seq<byte>, count: nat, comment: seq<byte>, zip64: bool, made: nat,
                      need: nat, a: Archive)
    requires a == LaidOut(prefix, records, count, comment, zip64, made, need) && Proper(a, zip64, made, need)
    ensures |a.end| == EOCD_SIZE && (Taken(a) == a.Located() <==> Told(a, zip64))
  {
    var l := Located(count, |records|, |prefix|);
    LaidOutIsSound(prefix, records, count, comment, zip64, made, need);
    EndReads(l, |comment|);
    NarrowLocated(a, l);
    if zip64 {
      LocatorBeyondStart(a);
      LocatorFollowed(a);
    }
  }

  lemma NarrowLocated(a: Archive, l: Zip.Located)
    requires |a.end| == EOCD_SIZE && EocdFields(a.end) == EndFields(l, |a.comment|)
    ensures Located(EocdFields(a.end)[4], EocdFields(a.end)[5], EocdFields(a.end)[6]) == l <==>
            l.count <= U16 && l.size <= U32 && l.offset <= U32
  {
    hide EocdFields;
  }

  /** Contents read at one place are not those of another. */
  lemma ContentsSayWhere(data: seq<byte>, start: nat, l: Zip.Located, comment: seq<byte>)
    ensures var r := Contents(data, start, l, comment);
            r.Ok? ==> Located(r.value.count, r.value.size, r.value.offset) == l
  {
    hide Checked, Window;
  }

  /**
    Reading undoes writing: for any members, extra fields and comment, with or
    without ZIP64 and whether or not the archive fits in the first read, the same
    members and the same records come back - provided nothing in the comment reads
    as a later record and nothing reads as a locator that is not one - exactly when
    the reader is told where the directory is. It is not in an archive longer than
    the first read that needs ZIP64 and has a comment of the full 65535 bytes.
   */
  lemma ReadingUndoesWriting(prefix: seq<byte>, entries: seq<E.Entry>, comment: seq<byte>, zip64: bool, made: nat,
                             need: nat)
    requires var a := Written(prefix, entries, comment, zip64, made, need);
             && Proper(a, zip64, made, need)
             && E.AllInside(entries, |a.Bytes()|) && Packed(E.MembersOf(entries)) <= |a.Bytes()|
    ensures var a := Written(prefix, entries, comment, zip64, made, need);
            Yields(ReadDirectory(a.Bytes()),
                   Directory(|prefix|, |a.records|, |entries|, a.records, comment, E.MembersOf(entries)))
            <==> Told(a, zip64)
  {
    hide ReadDirectory, Contents, Taken, Told, Proper, LaidOut;
    var a := Written(prefix, entries, comment, zip64, made, need);
    WrittenHas(prefix, entries, comment, zip64, made, need);
    E.DirectoryRoundTrip(entries, |a.Bytes()|);
    ProperOpens(prefix, a.records, |entries|, comment, zip64, made, need, a);
    TakenWhenTold(prefix, a.records, |entries|, comment, zip64, made, need, a);
    if Taken(a) == a.Located() { ReadsBack(a, a.Bytes(), E.MembersOf(entries)); }
    ContentsSayWhere(a.Bytes(), a.TailStart(), Taken(a), a.comment);
  }

  lemma WrittenHas(prefix: seq<byte>, entries: seq<E.Entry>, comment: seq<byte>, zip64: bool, made: nat, need: nat)
    ensures var a := Written(prefix, entries, comment, zip64, made, need);
            && a == LaidOut(prefix, a.records, |entries|, comment, zip64, made, need)
            && a.prefix == prefix && a.count == |entries| && a.records == E.EncodeAll(entries) && a.comment == comment
  {
  }

  // -- an archive that is not read back -----------------------------------

  /** No byte starts a signature. */
  ghost predicate Quiet(s: seq<byte>) { forall i | 0 <= i < |s| :: s[i] != 0x50 }

  lemma SigFirst(data: seq<byte>, at: nat)
    requires SigAt(data, at, EOCD_SIG)
    ensures data[at] == 0x50
  {
    var sig := data[at..at + 4];
    assert FromLittleEndian(sig) == sig[0] + 256 * FromLittleEndian(sig[1..]);
  }

  lemma {:induction false} PackQuiet(widths: seq<nat>, fields: seq<nat>)
    requires |fields| == |widths| && forall i | 0 <= i < |fields| :: Quiet(LittleEndian(fields[i], widths[i]))
    ensures Quiet(Pack(widths, fields))
    decreases fields
  {
    if widths != [] {
      assert Quiet(LittleEndian(fields[0], widths[0]));
      PackQuiet(widths[1..], fields[1..]);
    }
  }

  lemma {:induction false} ZerosQuiet(width: nat)
    ensures Quiet(LittleEndian(0, width))
  {
    if width > 0 { ZerosQuiet(width - 1); }
  }

  lemma FullQuiet()
    ensures Quiet(LittleEndian(U32, 4)) && Quiet(LittleEndian(U16, 2)) && Quiet(LittleEndian(EOCD_SIG, 4)[1..])
  {
    assert LittleEndian(U16, 2) == [255, 255];
    assert LittleEndian(U32, 4) == [255, 255] + LittleEndian(U16, 2);
    assert LittleEndian(0x0605, 2) == [5, 6];
    assert LittleEndian(EOCD_SIG, 4) == [0x50, 0x4b] + LittleEndian(0x0605, 2);
  }

  lemma PackStarts(widths: seq<nat>, fields: seq<nat>)
    requires |fields| == |widths| && widths != [] && widths[0] > 0
    ensures Pack(widths, fields)[1..] == LittleEndian(fields[0], widths[0])[1..] + Pack(widths[1..], fields[1..])
  {
    hide LittleEndian;
  }

  /** The end record of such an archive holds one byte that starts a signature, its own. */
  lemma EndQuiet(offset: nat)
    requires offset >= U32
    ensures Quiet(EndBytes(Located(0, 0, offset), U16)[1..])
  {
    hide LittleEndian, Pack;
    var fields := EndFields(Located(0, 0, offset), U16);
    FullQuiet();
    ZerosQuiet(2);
    ZerosQuiet(4);
    var widths, rest := EOCD[1..], fields[1..];
    assert rest == [0, 0, 0, 0, 0, U32, U16] && widths == [2, 2, 2, 2, 4, 4, 2];
    PackQuiet(widths, rest);
    PackStarts(EOCD, fields);
  }

  /** Nothing later in the archive reads as a record. */
  lemma NothingLater(a: Archive)
    requires |a.end| == EOCD_SIZE && Quiet(a.end[1..]) && Quiet(a.comment)
    ensures a.NoLaterRecord()
  {
    forall k | |a.Body()| < k <= |a.Body()| + |a.comment| ensures !SigAt(a.Bytes(), k, EOCD_SIG) {
      var i := k - |a.Body()|;
      assert a.Bytes()[k] == (a.end + a.comment)[i];
      assert i < EOCD_SIZE ==> a.end[i] == a.end[1..][i - 1];
      if SigAt(a.Bytes(), k, EOCD_SIG) { SigFirst(a.Bytes(), k); }
    }
  }

  /**
    The failing family: nothing in an archive but 4 GiB or more before an empty directory,
    and the longest comment there can be. It can be written, and what it holds is not
    read back.
   */
  lemma FullCommentUnread(prefix: seq<byte>, comment: seq<byte>)
    requires U32 < |prefix| < Pow256(7) && |comment| == U16 && Quiet(comment)
    ensures var a := Written(prefix, [], comment, true, 45, 45);
            && Proper(a, true, 45, 45) && !Told(a, true)
            && !Yields(ReadDirectory(a.Bytes()), Directory(|prefix|, |a.records|, 0, a.records, comment, []))
  {
    hide ReadDirectory, EndBytes, WideBytes, PointerBytes;
    var a := Written(prefix, [], comment, true, 45, 45);
    WrittenHas(prefix, [], comment, true, 45, 45);
    PowersOf256();
    LaidOutIsSound(prefix, [], 0, comment, true, 45, 45);
    EndReads(Located(0, 0, |prefix|), U16);
    EndQuiet(|prefix|);
    NothingLater(a);
    ReadingUndoesWriting(prefix, [], comment, true, 45, 45);
  }

  /** One of them: zeros throughout. */
  lemma ZerosUnread()
    ensures var prefix, comment := seq(0x1_0000_0000, _ => 0), seq(U16, _ => 0);
            var a := Written(prefix, [], comment, true, 45, 45);
            Proper(a, true, 45, 45) && !Told(a, true)
  {
    PowersOf256();
    FullCommentUnread(seq(0x1_0000_0000, _ => 0), seq(U16, _ => 0));
  }
}
