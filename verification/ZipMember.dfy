/** Where a writer puts a member's data, and the proof that a reader starts there. */
module ZipMember {
  import opened Wrappers
  import opened Bytes
  import opened Zip
  import opened ZipArchive
  import E = ZipEncode

  /**
    What a local header holds, apart from the name. Only the first, third and fourth are compared
    with the directory: a member whose sizes were not known when it was begun has zeros for them.
   */
  datatype Local = Local(
    sig: nat, need: nat, flags: nat, compression: nat, time: nat, date: nat, crc: nat, compressed: nat, size: nat,
    extra: seq<byte>)

  /** What the format can hold. */
  ghost predicate Holds(e: E.Entry, l: Local)
  {
    && l.sig <= U32 && l.need <= U16 && l.flags <= U16 && l.compression <= U16 && l.time <= U16 && l.date <= U16
    && l.crc <= U32 && l.compressed <= U32 && l.size <= U32 && |e.name| <= U16 && |l.extra| <= U16
  }

  /** The header is one, and says of the member what the directory says. */
  predicate Agrees(e: E.Entry, l: Local) { l.sig == LFH_SIG && l.flags == e.flags && l.compression == e.compression }

  function LocalFields(e: E.Entry, l: Local): (f: seq<nat>)
    ensures |f| == 11
  {
    [l.sig, l.need, l.flags, l.compression, l.time, l.date, l.crc, l.compressed, l.size, |e.name|, |l.extra|]
  }

  function LocalBytes(e: E.Entry, l: Local): seq<byte> { Pack(LFH, LocalFields(e, l)) + e.name + l.extra }

  /** Where the data begins. */
  function Begins(e: E.Entry, l: Local): nat { e.offset + LFH_SIZE + |e.name| + |l.extra| }

  ghost predicate StandAt(archive: seq<byte>, at: nat, data: seq<byte>)
  {
    at + |data| <= |archive| && archive[at..at + |data|] == data
  }

  lemma LocalSize(e: E.Entry, l: Local)
    ensures |Pack(LFH, LocalFields(e, l))| == LFH_SIZE && e.offset + |LocalBytes(e, l)| == Begins(e, l)
  {
    LfhSize();
  }

  /** The local header stands at the entry's offset, the data right behind it. */
  ghost predicate Stands(archive: seq<byte>, e: E.Entry, l: Local, data: seq<byte>)
  {
    |data| == e.compressed && StandAt(archive, e.offset, LocalBytes(e, l) + data)
  }

  lemma StandParts(archive: seq<byte>, at: nat, front: seq<byte>, back: seq<byte>)
    requires StandAt(archive, at, front + back)
    ensures StandAt(archive, at, front) && StandAt(archive, at + |front|, back)
  {
    var both := archive[at..at + |front + back|];
    assert both[..|front|] == archive[at..at + |front|] && both[|front|..] == archive[at + |front|..at + |both|];
  }

  lemma HeaderStands(archive: seq<byte>, e: E.Entry, l: Local, data: seq<byte>)
    requires Stands(archive, e, l, data)
    ensures Window(archive, e.offset, LFH_SIZE) == Pack(LFH, LocalFields(e, l))
    ensures StandAt(archive, Begins(e, l), data)
  {
    hide StandAt, Pack;
    var head := Pack(LFH, LocalFields(e, l));
    LocalSize(e, l);
    StandParts(archive, e.offset, LocalBytes(e, l), data);
    assert LocalBytes(e, l) == head + (e.name + l.extra);
    StandParts(archive, e.offset, head, e.name + l.extra);
    StandIsWindow(archive, e.offset, head);
  }

  lemma StandIsWindow(archive: seq<byte>, at: nat, data: seq<byte>)
    requires StandAt(archive, at, data)
    ensures Window(archive, at, |data|) == data
  {
  }

  lemma FieldsRead(e: E.Entry, l: Local)
    requires Holds(e, l)
    ensures Unpack(LFH, Pack(LFH, LocalFields(e, l))) == LocalFields(e, l)
  {
    PowersOf256();
    PackedReads(LFH, LocalFields(e, l));
  }

  lemma FindsBehind(archive: seq<byte>, e: E.Entry, l: Local, header: seq<byte>, members: seq<Member>)
    requires ReadDirectory(archive).Ok? && ReadDirectory(archive).value.members == members
    requires Named(members, e.name) == Some(E.MemberOf(e)) && header == Window(archive, e.offset, LFH_SIZE)
    requires |header| == LFH_SIZE && Size(LFH) == LFH_SIZE && Unpack(LFH, header) == LocalFields(e, l)
    requires Begins(e, l) + e.compressed <= |archive|
    ensures FindMember(archive, e.name) ==
            if Agrees(e, l) then At(E.MemberOf(e), Begins(e, l)) else Damaged(BadDirectory)
  {
    hide ReadDirectory, Unpack, Named;
  }

  /**
    A member is found by its name with its data where it was put, whatever the lengths of name and extra fields,
    exactly when its local header agrees with the directory.
   */
  lemma FindsData(archive: seq<byte>, e: E.Entry, l: Local, data: seq<byte>, members: seq<Member>)
    requires ReadDirectory(archive).Ok? && ReadDirectory(archive).value.members == members
    requires Named(members, e.name) == Some(E.MemberOf(e)) && Holds(e, l) && Stands(archive, e, l, data)
    ensures FindMember(archive, e.name) ==
            if Agrees(e, l) then At(E.MemberOf(e), Begins(e, l)) else Damaged(BadDirectory)
    ensures StandAt(archive, Begins(e, l), data)
  {
    hide ReadDirectory, Named, FindMember;
    HeaderStands(archive, e, l, data);
    LocalSize(e, l);
    LfhSize();
    FieldsRead(e, l);
    FindsBehind(archive, e, l, Pack(LFH, LocalFields(e, l)), members);
  }

  lemma {:induction false} FirstIsNamed(entries: seq<E.Entry>, i: nat)
    requires i < |entries| && forall k | 0 <= k < i :: entries[k].name != entries[i].name
    ensures Named(E.MembersOf(entries), entries[i].name) == Some(E.MemberOf(entries[i]))
  {
    if i > 0 { FirstIsNamed(entries[1..], i - 1); }
  }

  lemma StandsStill(prefix: seq<byte>, rest: seq<byte>, e: E.Entry, l: Local, data: seq<byte>)
    requires Stands(prefix, e, l, data)
    ensures Stands(prefix + rest, e, l, data)
  {
    var stop := e.offset + |LocalBytes(e, l) + data|;
    assert (prefix + rest)[e.offset..stop] == prefix[e.offset..stop];
  }

  /**
    Of an archive as written, the first member of a name is found with its own data when its local header
    agrees, for any members, names, extra fields and comment, with or without ZIP64.
   */
  lemma {:induction false} MemberRoundTrip(prefix: seq<byte>, entries: seq<E.Entry>, comment: seq<byte>, zip64: bool,
                                           made: nat, need: nat, i: nat, l: Local, data: seq<byte>)
    requires var a := Written(prefix, entries, comment, zip64, made, need);
             && Proper(a, zip64, made, need) && Told(a, zip64)
             && E.AllInside(entries, |a.Bytes()|) && Packed(E.MembersOf(entries)) <= |a.Bytes()|
    requires i < |entries| && forall k | 0 <= k < i :: entries[k].name != entries[i].name
    requires Holds(entries[i], l) && Stands(prefix, entries[i], l, data)
    ensures var archive, e := Written(prefix, entries, comment, zip64, made, need).Bytes(), entries[i];
            && FindMember(archive, e.name) ==
               (if Agrees(e, l) then At(E.MemberOf(e), Begins(e, l)) else Damaged(BadDirectory))
            && StandAt(archive, Begins(e, l), data)
  {
    hide ReadDirectory, FindMember, Told, Proper, LaidOut, Stands, Holds, Named, Archive.Bytes, E.AllInside, Packed;
    hide E.MembersOf, E.EncodeAll;
    var a, e := Written(prefix, entries, comment, zip64, made, need), entries[i];
    WrittenHas(prefix, entries, comment, zip64, made, need);
    ReadingUndoesWriting(prefix, entries, comment, zip64, made, need);
    FirstIsNamed(entries, i);
    BytesBegin(a, e, l, data);
    FindsData(a.Bytes(), e, l, data, E.MembersOf(entries));
  }

  lemma BytesBegin(a: Archive, e: E.Entry, l: Local, data: seq<byte>)
    requires Stands(a.prefix, e, l, data)
    ensures Stands(a.Bytes(), e, l, data)
  {
    var rest := a.records + a.wide + a.pointer + (a.end + a.comment);
    assert a.Bytes() == a.prefix + rest;
    StandsStill(a.prefix, rest, e, l, data);
  }
}
