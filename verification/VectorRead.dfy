/**
  Vector reads: ranges cut to what one element may hold, replies walked as frames,
  segments filed by offset and claimed back, and the in-order shortcut.
 */
module VectorRead {
  import opened Wrappers
  import opened Bytes
  import opened Batching

  const MAX_ELEMENT: nat := MAX_BYTES - 16
  const HEADER: nat := 16

  datatype Range = Range(offset: nat, length: nat)

  /** One segment of a reply: the header's offset is a signed 64-bit field, so it may be anything. */
  datatype Segment = Segment(offset: int, data: seq<byte>)

  datatype Error =
    | Malformed            // the reply is not a sequence of whole segments
    | LeftOut(at: Range)   // no segment answers this range
    | TooLong(at: Range)   // a segment is longer than the range it answers

  // -- cutting ------------------------------------------------------------

  function Cut(offset: nat, length: nat): (pieces: seq<Range>)
    ensures pieces != []
    ensures forall i | 0 <= i < |pieces| :: pieces[i].length <= MAX_ELEMENT
    decreases length
  {
    if length <= MAX_ELEMENT then [Range(offset, length)]
    else [Range(offset, MAX_ELEMENT)] + Cut(offset + MAX_ELEMENT, length - MAX_ELEMENT)
  }

  /** A range as elements no longer than the server takes. */
  function Pieces(r: Range): (pieces: seq<Range>)
    ensures pieces != []
    ensures forall i | 0 <= i < |pieces| :: pieces[i].length <= MAX_ELEMENT
  {
    Cut(r.offset, r.length)
  }

  function AllPieces(ranges: seq<Range>): seq<Range>
  {
    if ranges == [] then [] else Pieces(ranges[0]) + AllPieces(ranges[1..])
  }

  // -- framing ------------------------------------------------------------

  function Signed(data: seq<byte>): int
  {
    var v := FromBigEndian(data);
    if 2 * v < Pow256(|data|) then v else v - Pow256(|data|)
  }

  /** A `readahead_list` element: file handle, 32-bit length, 64-bit offset. */
  function Header(handle: seq<byte>, length: nat, offset: nat): (h: seq<byte>)
    requires |handle| == 4
    ensures |h| == HEADER
  {
    handle + BigEndian(length, 4) + BigEndian(offset, 8)
  }

  ghost predicate Framable(length: nat, offset: nat)
  {
    2 * length < Pow256(4) && 2 * offset < Pow256(8)
  }

  lemma HeaderReads(handle: seq<byte>, length: nat, offset: nat, tail: seq<byte>)
    requires |handle| == 4 && Framable(length, offset)
    ensures var body := Header(handle, length, offset) + tail;
            Signed(body[4..8]) == length && Signed(body[8..16]) == offset
  {
    var body := Header(handle, length, offset) + tail;
    assert body[4..8] == BigEndian(length, 4);
    assert body[8..16] == BigEndian(offset, 8);
    BigEndianRoundTrip(length, 4);
    BigEndianRoundTrip(offset, 8);
  }

  // -- walking a reply ----------------------------------------------------

  /** The segments before the walk stopped, and whether it stopped at the end of the body. */
  datatype Walked = Walked(segments: seq<Segment>, whole: bool)

  predicate HeadOk(body: seq<byte>)
  {
    |body| >= HEADER && 0 <= Signed(body[4..8]) <= |body| - HEADER
  }

  function Head(body: seq<byte>): (s: Segment)
    requires HeadOk(body)
    ensures HEADER + |s.data| <= |body|
  {
    Segment(Signed(body[8..16]), body[HEADER..HEADER + Signed(body[4..8])])
  }

  function Parse(body: seq<byte>): (w: Walked)
    decreases |body|
  {
    if body == [] then Walked([], true)
    else if !HeadOk(body) then Walked([], false)
    else
      var rest := Parse(body[HEADER + |Head(body).data|..]);
      Walked([Head(body)] + rest.segments, rest.whole)
  }

  /** The walk has got to `at`, with these segments behind it. */
  ghost predicate GotTo(body: seq<byte>, segments: seq<Segment>, at: nat)
  {
    at <= |body| && Parse(body) == Walked(segments + Parse(body[at..]).segments, Parse(body[at..]).whole)
  }

  lemma WalksOn(body: seq<byte>, segments: seq<Segment>, at: nat)
    requires GotTo(body, segments, at) && at < |body|
    ensures HeadOk(body[at..]) ==>
              GotTo(body, segments + [Head(body[at..])], at + HEADER + |Head(body[at..]).data|)
    ensures !HeadOk(body[at..]) ==> Parse(body) == Walked(segments, false)
  {
    hide HeadOk, Head;
    var rest := body[at..];
    if HeadOk(rest) {
      var n := HEADER + |Head(rest).data|;
      assert rest[n..] == body[at + n..];
      assert segments + ([Head(rest)] + Parse(rest[n..]).segments) ==
             segments + [Head(rest)] + Parse(rest[n..]).segments;
    }
  }

  lemma HeadAt(body: seq<byte>, at: nat)
    requires at + HEADER <= |body|
    ensures var length, offset := Signed(body[at + 4..at + 8]), Signed(body[at + 8..at + HEADER]);
            && (HeadOk(body[at..]) <==> 0 <= length && at + HEADER + length <= |body|)
            && (HeadOk(body[at..]) ==> Head(body[at..]) == Segment(offset, body[at + HEADER..at + HEADER + length]))
  {
    hide Signed;
    var rest := body[at..];
    assert rest[4..8] == body[at + 4..at + 8] && rest[8..16] == body[at + 8..at + HEADER];
    if HeadOk(rest) {
      var length := Signed(rest[4..8]);
      assert rest[HEADER..HEADER + length] == body[at + HEADER..at + HEADER + length];
    }
  }

  /** The walk of one reply, in place: a position that each segment moves past. */
  method Walk(body: seq<byte>) returns (segments: seq<Segment>, whole: bool)
    ensures Walked(segments, whole) == Parse(body)
  {
    segments := [];
    var at := 0;
    assert body[0..] == body;
    while at < |body|
      invariant GotTo(body, segments, at)
    {
      hide Signed, Head, Parse, GotTo;
      WalksOn(body, segments, at);
      if |body| - at < HEADER { return segments, false; }
      HeadAt(body, at);
      var length := Signed(body[at + 4..at + 8]);
      var offset := Signed(body[at + 8..at + HEADER]);
      at := at + HEADER;
      if length < 0 { return segments, false; }
      if at + length > |body| { return segments, false; }
      segments := segments + [Segment(offset, body[at..at + length])];
      at := at + length;
    }
    assert body[at..] == [];
    whole := true;
  }

  /** The body begins with a header that describes `s`, and `s` itself. */
  predicate Leads(body: seq<byte>, s: Segment)
  {
    && |body| >= HEADER + |s.data| && Signed(body[4..8]) == |s.data| && Signed(body[8..16]) == s.offset
    && body[HEADER..HEADER + |s.data|] == s.data
  }

  /** `segments`, each behind a header that describes it, are exactly the body: no gap, no byte left over. */
  ghost predicate Tiled(body: seq<byte>, segments: seq<Segment>)
    decreases |segments|
  {
    if segments == [] then body == []
    else Leads(body, segments[0]) && Tiled(body[HEADER + |segments[0].data|..], segments[1..])
  }

  lemma LeadsIsHead(body: seq<byte>, s: Segment)
    ensures Leads(body, s) <==> body != [] && HeadOk(body) && Head(body) == s
    ensures Leads(body, s) ==> HEADER + |s.data| <= |body|
  {
  }

  lemma ParseUnfolds(body: seq<byte>, segments: seq<Segment>)
    requires body != [] && HeadOk(body)
    ensures Parse(body) == Walked(segments, true) <==>
            && segments != [] && segments[0] == Head(body)
            && Parse(body[HEADER + |Head(body).data|..]) == Walked(segments[1..], true)
  {
    hide HeadOk, Head;
    var rest := Parse(body[HEADER + |Head(body).data|..]);
    assert ([Head(body)] + rest.segments)[1..] == rest.segments;
    if segments != [] { assert segments == [segments[0]] + segments[1..]; }
  }

  /** A body is accepted if and only if segments tile it, and the walk yields those segments. */
  lemma {:induction false} WalkAcceptsTilings(body: seq<byte>, segments: seq<Segment>)
    ensures Parse(body) == Walked(segments, true) <==> Tiled(body, segments)
    decreases |body|
  {
    hide HeadOk, Head, Leads;
    if segments != [] { LeadsIsHead(body, segments[0]); }
    if body != [] && HeadOk(body) {
      ParseUnfolds(body, segments);
      WalkAcceptsTilings(body[HEADER + |Head(body).data|..], if segments == [] then [] else segments[1..]);
    }
  }

  /** The frames a server writes for `segments`. */
  function Frames(handle: seq<byte>, segments: seq<Segment>): (body: seq<byte>)
    requires |handle| == 4 && forall i | 0 <= i < |segments| :: segments[i].offset >= 0
  {
    if segments == [] then []
    else Header(handle, |segments[0].data|, segments[0].offset) + segments[0].data + Frames(handle, segments[1..])
  }

  /** Walking undoes framing. */
  lemma {:induction false} FramesRoundTrip(handle: seq<byte>, segments: seq<Segment>)
    requires |handle| == 4
    requires forall i | 0 <= i < |segments| ::
               segments[i].offset >= 0 && Framable(|segments[i].data|, segments[i].offset)
    ensures Parse(Frames(handle, segments)) == Walked(segments, true)
  {
    hide Header, Signed, Framable;
    if segments != [] {
      var s := segments[0];
      var rest := Frames(handle, segments[1..]);
      FramesRoundTrip(handle, segments[1..]);
      HeaderReads(handle, |s.data|, s.offset, s.data + rest);
      var body := Frames(handle, segments);
      assert body == Header(handle, |s.data|, s.offset) + (s.data + rest);
      assert body[HEADER..HEADER + |s.data|] == s.data;
      assert body[HEADER + |s.data|..] == rest;
      assert segments == [s] + segments[1..];
    }
  }

  /** Every reply walked in turn, stopping where the first malformed one does. */
  function ParseAll(bodies: seq<seq<byte>>): (w: Walked)
  {
    if bodies == [] then Walked([], true)
    else
      var first := Parse(bodies[0]);
      if !first.whole then first
      else
        var rest := ParseAll(bodies[1..]);
        Walked(first.segments + rest.segments, rest.whole)
  }

  // -- the in-order shortcut ----------------------------------------------

  datatype Quick = Exactly(data: seq<seq<byte>>) | Differs | Broken

  predicate Answers(s: Segment, r: Range) { s.offset == r.offset && |s.data| == r.length }

  function Data(segments: seq<Segment>): seq<seq<byte>>
  {
    seq(|segments|, i requires 0 <= i < |segments| => segments[i].data)
  }

  predicate Matches(segments: seq<Segment>, wanted: seq<Range>)
  {
    |segments| <= |wanted| && forall i | 0 <= i < |segments| :: Answers(segments[i], wanted[i])
  }

  /** What the shortcut decides: a difference is seen before anything malformed that comes after it. */
  function Shortcut(bodies: seq<seq<byte>>, wanted: seq<Range>): Quick
  {
    var w := ParseAll(bodies);
    if !Matches(w.segments, wanted) then Differs
    else if !w.whole then Broken
    else if |w.segments| == |wanted| then Exactly(Data(w.segments))
    else Differs
  }

  /** After some replies: their segments are in `seen`, and the rest of the replies hold the rest. */
  ghost predicate WalkedTo(bodies: seq<seq<byte>>, n: nat, seen: seq<Segment>)
    requires n <= |bodies|
  {
    var rest := ParseAll(bodies[n..]);
    ParseAll(bodies) == Walked(seen + rest.segments, rest.whole)
  }

  lemma ParseAllFrom(bodies: seq<seq<byte>>, n: nat)
    requires n < |bodies|
    ensures var w := Parse(bodies[n]);
            var rest := ParseAll(bodies[n + 1..]);
            ParseAll(bodies[n..]) ==
            if w.whole then Walked(w.segments + rest.segments, rest.whole) else w
  {
    assert bodies[n..][0] == bodies[n] && bodies[n..][1..] == bodies[n + 1..];
  }

  lemma WalkedOneMore(bodies: seq<seq<byte>>, n: nat, seen: seq<Segment>)
    requires n < |bodies| && WalkedTo(bodies, n, seen)
    ensures var w := Parse(bodies[n]);
            && seen + w.segments <= ParseAll(bodies).segments
            && (w.whole ==> WalkedTo(bodies, n + 1, seen + w.segments))
            && (!w.whole ==> ParseAll(bodies) == Walked(seen + w.segments, false))
  {
    ParseAllFrom(bodies, n);
    Regroup(ParseAll(bodies), seen, Parse(bodies[n]), ParseAll(bodies[n + 1..]));
  }

  lemma Regroup(all: Walked, seen: seq<Segment>, w: Walked, rest: Walked)
    requires all == if w.whole then Walked(seen + (w.segments + rest.segments), rest.whole)
                    else Walked(seen + w.segments, false)
    ensures seen + w.segments <= all.segments
    ensures w.whole ==> all == Walked((seen + w.segments) + rest.segments, rest.whole)
  {
    assert seen + (w.segments + rest.segments) == (seen + w.segments) + rest.segments;
  }

  /** Check one reply's segments against what was asked for next. */
  method Check(segments: seq<Segment>, wanted: seq<Range>, before: seq<seq<byte>>, ghost seen: seq<Segment>)
    returns (ok: bool, out: seq<seq<byte>>)
    requires Matches(seen, wanted) && before == Data(seen)
    ensures ok <==> Matches(seen + segments, wanted)
    ensures ok ==> out == Data(seen + segments)
  {
    out := before;
    for m := 0 to |segments|
      invariant Matches(seen + segments[..m], wanted) && out == Data(seen + segments[..m])
    {
      var s := segments[m];
      assert (seen + segments)[|seen| + m] == s;
      if |out| >= |wanted| || wanted[|out|].offset != s.offset || wanted[|out|].length != |s.data| {
        return false, out;
      }
      out := out + [s.data];
      assert seen + segments[..m + 1] == (seen + segments[..m]) + [s];
    }
    assert segments[..|segments|] == segments;
    ok := true;
  }

  lemma MatchesPrefix(a: seq<Segment>, b: seq<Segment>, wanted: seq<Range>)
    requires a <= b && Matches(b, wanted)
    ensures Matches(a, wanted)
  {
    assert forall i | 0 <= i < |a| :: a[i] == b[i];
  }

  /** One pass over the replies against the request, given up at the first thing that does not fit. */
  method AsAsked(bodies: seq<seq<byte>>, wanted: seq<Range>) returns (q: Quick)
    ensures q == Shortcut(bodies, wanted)
  {
    var out: seq<seq<byte>> := [];
    ghost var seen: seq<Segment> := [];
    for n := 0 to |bodies|
      invariant WalkedTo(bodies, n, seen)
      invariant Matches(seen, wanted) && out == Data(seen)
    {
      var segments, whole := Walk(bodies[n]);
      WalkedOneMore(bodies, n, seen);
      var ok;
      ok, out := Check(segments, wanted, out, seen);
      if !ok {
        if Matches(ParseAll(bodies).segments, wanted) {
          MatchesPrefix(seen + segments, ParseAll(bodies).segments, wanted);
        }
        return Differs;
      }
      seen := seen + segments;
      if !whole { return Broken; }
    }
    assert bodies[|bodies|..] == [];
    assert ParseAll(bodies).segments == seen;
    q := if |out| == |wanted| then Exactly(out) else Differs;
  }

  // -- filing by offset ---------------------------------------------------

  type Filed = map<int, seq<seq<byte>>>

  /** The data of the segments at one offset, in the order they came. */
  function DataAt(segments: seq<Segment>, offset: int): seq<seq<byte>>
  {
    if segments == [] then []
    else if segments[0].offset == offset then [segments[0].data] + DataAt(segments[1..], offset)
    else DataAt(segments[1..], offset)
  }

  lemma {:induction false} DataAtAppend(a: seq<Segment>, b: seq<Segment>, offset: int)
    ensures DataAt(a + b, offset) == DataAt(a, offset) + DataAt(b, offset)
  {
    if a == [] {
      assert a + b == b;
    } else {
      DataAtAppend(a[1..], b, offset);
      assert (a + b)[1..] == a[1..] + b;
    }
  }

  /** Every segment is filed under its offset, in order, and nothing else is. */
  ghost predicate FiledAs(filed: Filed, segments: seq<Segment>)
  {
    forall o: int :: (if o in filed then filed[o] else []) == DataAt(segments, o)
  }

  /** Any segments can be filed. */
  lemma {:induction false} FiledExists(segments: seq<Segment>) returns (filed: Filed)
    ensures FiledAs(filed, segments)
  {
    filed := map[];
    if segments != [] {
      var s := segments[|segments| - 1];
      filed := FiledExists(segments[..|segments| - 1]);
      FiledOneMore(filed, segments[..|segments| - 1], s);
      assert segments[..|segments| - 1] + [s] == segments;
      filed := filed[s.offset := (if s.offset in filed then filed[s.offset] else []) + [s.data]];
    }
  }

  lemma FiledOneMore(filed: Filed, seen: seq<Segment>, s: Segment)
    requires FiledAs(filed, seen)
    ensures FiledAs(filed[s.offset := (if s.offset in filed then filed[s.offset] else []) + [s.data]], seen + [s])
  {
    forall o: int
      ensures DataAt(seen + [s], o) == DataAt(seen, o) + (if o == s.offset then [s.data] else [])
    {
      DataAtAppend(seen, [s], o);
      assert [s][1..] == [];
    }
  }

  method FileSegments(segments: seq<Segment>, before: Filed, ghost seen: seq<Segment>) returns (out: Filed)
    requires FiledAs(before, seen)
    ensures FiledAs(out, seen + segments)
  {
    out := before;
    assert seen + segments[..0] == seen;
    for m := 0 to |segments|
      invariant FiledAs(out, seen + segments[..m])
    {
      var s := segments[m];
      assert seen + segments[..m + 1] == (seen + segments[..m]) + [s];
      FiledOneMore(out, seen + segments[..m], s);
      out := out[s.offset := (if s.offset in out then out[s.offset] else []) + [s.data]];
    }
    assert segments[..|segments|] == segments;
  }

  /** Sorts the replies' segments under their offsets; of those at one offset the first to arrive stands first. */
  method ByOffset(bodies: seq<seq<byte>>) returns (r: Result<Filed, Error>)
    ensures r.Ok? <==> ParseAll(bodies).whole
    ensures r.Ok? ==> FiledAs(r.value, ParseAll(bodies).segments)
    ensures r.Err? ==> r.error == Malformed
  {
    var out: Filed := map[];
    ghost var seen: seq<Segment> := [];
    for n := 0 to |bodies|
      invariant WalkedTo(bodies, n, seen)
      invariant FiledAs(out, seen)
    {
      var segments, whole := Walk(bodies[n]);
      WalkedOneMore(bodies, n, seen);
      if !whole { return Err(Malformed); }
      out := FileSegments(segments, out, seen);
      seen := seen + segments;
    }
    assert bodies[|bodies|..] == [];
    assert ParseAll(bodies).segments == seen;
    r := Ok(out);
  }

  // -- claiming -----------------------------------------------------------

  /** Claims the first answer filed at the range's offset; a sole answer stays filed for whoever asks again. */
  function SegmentFor(r: Range, filed: Filed): (c: Result<(seq<byte>, Filed), Error>)
  {
    if r.offset !in filed || filed[r.offset] == [] then Err(LeftOut(r))
    else
      var answers := filed[r.offset];
      if |answers[0]| > r.length then Err(TooLong(r))
      else Ok((answers[0], if |answers| > 1 then filed[r.offset := answers[1..]] else filed))
  }

  function ClaimAll(wanted: seq<Range>, filed: Filed): (c: Result<(seq<seq<byte>>, Filed), Error>)
  {
    if wanted == [] then Ok(([], filed))
    else
      match SegmentFor(wanted[0], filed)
      case Err(e) => Err(e)
      case Ok((data, left)) =>
        match ClaimAll(wanted[1..], left)
        case Err(e) => Err(e)
        case Ok((more, end)) => Ok(([data] + more, end))
  }

  /** Whatever the server sent, a claim that succeeds is one segment a range, none longer than asked. */
  lemma {:induction false} ClaimsBounded(wanted: seq<Range>, filed: Filed)
    requires ClaimAll(wanted, filed).Ok?
    ensures |ClaimAll(wanted, filed).value.0| == |wanted|
    ensures forall i | 0 <= i < |wanted| :: |ClaimAll(wanted, filed).value.0[i]| <= wanted[i].length
  {
    if wanted != [] { ClaimsBounded(wanted[1..], SegmentFor(wanted[0], filed).value.1); }
  }

  /** How many of the ranges begin at `offset`. */
  function Askers(ranges: seq<Range>, offset: int): (n: nat)
  {
    if ranges == [] then 0 else (if ranges[0].offset == offset then 1 else 0) + Askers(ranges[1..], offset)
  }

  /**
    The answer to the range at `i` out of all that was sent: of the segments at its offset the one
    that came as far along as the range is among those asking there, the last when they run out.
   */
  function AnswerTo(wanted: seq<Range>, i: nat, sent: int -> seq<seq<byte>>): (answer: Option<seq<byte>>)
    requires i < |wanted|
  {
    var here := sent(wanted[i].offset);
    if here == [] then None else Some(here[Min(Askers(wanted[..i], wanted[i].offset), |here| - 1)])
  }

  predicate Served(wanted: seq<Range>, i: nat, sent: int -> seq<seq<byte>>)
    requires i < |wanted|
  {
    AnswerTo(wanted, i, sent).Some? && |AnswerTo(wanted, i, sent).value| <= wanted[i].length
  }

  /** Every range has its answer; or the first that has none, or one too long, is what went wrong. */
  ghost predicate ClaimedAs(wanted: seq<Range>, sent: int -> seq<seq<byte>>, r: Result<seq<seq<byte>>, Error>)
  {
    match r
    case Ok(data) =>
      |data| == |wanted| &&
      forall i | 0 <= i < |wanted| :: Served(wanted, i, sent) && AnswerTo(wanted, i, sent) == Some(data[i])
    case Err(e) =>
      exists i | 0 <= i < |wanted| ::
        && (forall k | 0 <= k < i :: Served(wanted, k, sent)) && !Served(wanted, i, sent)
        && e == if AnswerTo(wanted, i, sent).None? then LeftOut(wanted[i]) else TooLong(wanted[i])
  }

  function Claimed(wanted: seq<Range>, filed: Filed): Result<seq<seq<byte>>, Error>
  {
    match ClaimAll(wanted, filed)
    case Err(e) => Err(e)
    case Ok((data, _)) => Ok(data)
  }

  function FiledAt(filed: Filed): int -> seq<seq<byte>> { (o: int) => if o in filed then filed[o] else [] }

  /** What the first claim leaves on file answers the ranges after it as before. */
  lemma LeftServes(wanted: seq<Range>, filed: Filed, i: nat)
    requires 0 < i < |wanted| && SegmentFor(wanted[0], filed).Ok?
    ensures AnswerTo(wanted, i, FiledAt(filed)) ==
            AnswerTo(wanted[1..], i - 1, FiledAt(SegmentFor(wanted[0], filed).value.1))
  {
    var o := wanted[i].offset;
    assert wanted[1..][i - 1] == wanted[i] && wanted[..i][0] == wanted[0] && wanted[..i][1..] == wanted[1..][..i - 1];
  }

  /**
    Whatever the server sent: claiming from the file, which takes answers off it as it goes, gives each
    range the answer that is its own, and fails at the first range that has none or one too long.
   */
  lemma {:induction false} ClaimsExactly(wanted: seq<Range>, filed: Filed)
    ensures ClaimedAs(wanted, FiledAt(filed), Claimed(wanted, filed))
  {
    hide AnswerTo;
    if wanted != [] {
      var sent := FiledAt(filed);
      FirstClaim(wanted, filed);
      if SegmentFor(wanted[0], filed).Err? {
        assert !Served(wanted, 0, sent);
      } else {
        var left := SegmentFor(wanted[0], filed).value.1;
        ClaimsExactly(wanted[1..], left);
        forall i | 0 < i < |wanted|
          ensures AnswerTo(wanted, i, sent) == AnswerTo(wanted[1..], i - 1, FiledAt(left))
          ensures wanted[i] == wanted[1..][i - 1]
        {
          LeftServes(wanted, filed, i);
        }
        ClaimedMore(wanted, sent, FiledAt(left), SegmentFor(wanted[0], filed).value.0, Claimed(wanted[1..], left));
      }
    }
  }

  lemma FirstClaim(wanted: seq<Range>, filed: Filed)
    requires wanted != []
    ensures var sent, c := FiledAt(filed), SegmentFor(wanted[0], filed);
            && (c.Ok? <==> Served(wanted, 0, sent)) && (c.Ok? ==> AnswerTo(wanted, 0, sent) == Some(c.value.0))
            && (c.Err? ==> c.error == if AnswerTo(wanted, 0, sent).None? then LeftOut(wanted[0])
                                      else TooLong(wanted[0]))
  {
    assert wanted[..0] == [];
  }

  lemma ClaimedMore(wanted: seq<Range>, sent: int -> seq<seq<byte>>, later: int -> seq<seq<byte>>, data: seq<byte>,
                    rest: Result<seq<seq<byte>>, Error>)
    requires wanted != [] && Served(wanted, 0, sent) && AnswerTo(wanted, 0, sent) == Some(data)
    requires forall i | 0 < i < |wanted| ::
               wanted[i] == wanted[1..][i - 1] && AnswerTo(wanted, i, sent) == AnswerTo(wanted[1..], i - 1, later)
    requires ClaimedAs(wanted[1..], later, rest)
    ensures ClaimedAs(wanted, sent, match rest case Ok(more) => Ok([data] + more) case Err(e) => Err(e))
  {
    hide AnswerTo;
    if rest.Err? {
      var i :| 0 <= i < |wanted[1..]| && (forall k | 0 <= k < i :: Served(wanted[1..], k, later))
               && !Served(wanted[1..], i, later)
               && rest.error == if AnswerTo(wanted[1..], i, later).None? then LeftOut(wanted[1..][i])
                                else TooLong(wanted[1..][i]);
      forall k | 0 <= k < i + 1 ensures Served(wanted, k, sent) {
        if k > 0 { assert Served(wanted[1..], k - 1, later); }
      }
      assert !Served(wanted, i + 1, sent);
    } else {
      forall i | 0 <= i < |wanted|
        ensures Served(wanted, i, sent) && AnswerTo(wanted, i, sent) == Some(([data] + rest.value)[i])
      {
        if i > 0 { assert Served(wanted[1..], i - 1, later); }
      }
    }
  }

  /** `ideal[i]` is an answer to `wanted[i]`, possibly short. */
  ghost predicate InOrder(wanted: seq<Range>, ideal: seq<Segment>)
  {
    |wanted| == |ideal| && forall i | 0 <= i < |wanted| ::
      ideal[i].offset == wanted[i].offset && |ideal[i].data| <= wanted[i].length
  }

  /** Whatever is still to be claimed is on file, in claiming order. */
  ghost predicate OnFile(filed: Filed, ideal: seq<Segment>)
  {
    forall i | 0 <= i < |ideal| :: ideal[i].offset in filed && filed[ideal[i].offset] == DataAt(ideal, ideal[i].offset)
  }

  /**
    Claiming in request order hands each range its own segment, however many
    ranges share an offset, although the last segment at an offset is never removed.
   */
  lemma {:induction false} ClaimsInOrder(wanted: seq<Range>, ideal: seq<Segment>, filed: Filed, later: seq<Segment>)
    requires InOrder(wanted, ideal) && OnFile(filed, ideal + later)
    ensures ClaimAll(wanted, filed).Ok?
    ensures ClaimAll(wanted, filed).value.0 == Data(ideal)
    ensures OnFile(ClaimAll(wanted, filed).value.1, later)
  {
    if wanted == [] {
      assert ideal + later == later;
    } else {
      var all := ideal + later;
      var s := all[0];
      assert all[1..] == ideal[1..] + later;
      assert s.offset in filed && filed[s.offset] == DataAt(all, s.offset);
      assert DataAt(all, s.offset) == [s.data] + DataAt(all[1..], s.offset);
      var left := SegmentFor(wanted[0], filed).value.1;
      forall i | 0 <= i < |all[1..]|
        ensures all[1..][i].offset in left && left[all[1..][i].offset] == DataAt(all[1..], all[1..][i].offset)
      {
        assert all[1..][i] == all[i + 1];
        DataAtHolds(all[1..], i);
      }
      ClaimsInOrder(wanted[1..], ideal[1..], left, later);
      assert Data(ideal) == [s.data] + Data(ideal[1..]);
    }
  }

  lemma {:induction false} DataAtHolds(segments: seq<Segment>, i: nat)
    requires i < |segments|
    ensures DataAt(segments, segments[i].offset) != []
  {
    if i > 0 { DataAtHolds(segments[1..], i - 1); }
  }

  /** A file of the same segments in any order that keeps equal offsets in order serves the same claims. */
  lemma FiledServes(filed: Filed, arrived: seq<Segment>, ideal: seq<Segment>)
    requires FiledAs(filed, arrived) && forall o: int :: DataAt(arrived, o) == DataAt(ideal, o)
    ensures OnFile(filed, ideal)
  {
    forall i | 0 <= i < |ideal|
      ensures ideal[i].offset in filed && filed[ideal[i].offset] == DataAt(ideal, ideal[i].offset)
    {
      DataAtHolds(ideal, i);
    }
  }

  /**
    Whenever the shortcut accepts, filing every segment by offset and claiming
    each range back gives the identical list, without error.
   */
  lemma ShortcutAgrees(bodies: seq<seq<byte>>, wanted: seq<Range>, filed: Filed)
    requires Shortcut(bodies, wanted).Exactly?
    requires FiledAs(filed, ParseAll(bodies).segments)
    ensures ClaimAll(wanted, filed).Ok?
    ensures ClaimAll(wanted, filed).value.0 == Shortcut(bodies, wanted).data
  {
    var segments := ParseAll(bodies).segments;
    FiledServes(filed, segments, segments);
    assert segments + [] == segments;
    ClaimsInOrder(wanted, segments, filed, []);
  }
}
