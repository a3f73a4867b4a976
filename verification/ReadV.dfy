/** A whole vector read, against any server that answers each request honestly. */
module ReadV {
  import opened Wrappers
  import opened Bytes
  import opened Batching
  import opened VectorRead

  /** The answers in request order: each range's bytes, short only at end of file. */
  function Ideal(file: seq<byte>, ranges: seq<Range>): (segments: seq<Segment>)
    ensures |segments| == |ranges|
    ensures forall i | 0 <= i < |ranges| ::
              segments[i] == Segment(ranges[i].offset, Window(file, ranges[i].offset, ranges[i].length))
  {
    seq(|ranges|, i requires 0 <= i < |ranges| =>
          Segment(ranges[i].offset, Window(file, ranges[i].offset, ranges[i].length)))
  }

  function Windows(file: seq<byte>, ranges: seq<Range>): (data: seq<seq<byte>>)
  {
    seq(|ranges|, i requires 0 <= i < |ranges| => Window(file, ranges[i].offset, ranges[i].length))
  }

  /** A reply of whole segments, in any order that keeps those at one offset in request order. */
  ghost predicate Honest(file: seq<byte>, batch: seq<Range>, body: seq<byte>)
  {
    Parse(body).whole && forall o: int :: DataAt(Parse(body).segments, o) == DataAt(Ideal(file, batch), o)
  }

  /** What a request may carry: at most 1024 elements, each within the element ceiling, 2 MiB in all. */
  ghost predicate Acceptable(batch: seq<Range>)
  {
    && 0 < |batch| <= MAX_CHUNKS && Weight(batch, (r: Range) => r.length) <= MAX_BYTES
    && forall i | 0 <= i < |batch| :: batch[i].length <= MAX_ELEMENT && Framable(batch[i].length, batch[i].offset)
  }

  /** The data server. Only its contract is relied on: any reply it allows may come back. */
  class Server {
    const file: seq<byte>

    constructor (content: seq<byte>)
      ensures file == content
    {
      file := content;
    }

    method Answer(batch: seq<Range>) returns (body: seq<byte>)
      requires Acceptable(batch)
      ensures Honest(file, batch, body)
    {
      var segments := Ideal(file, batch);
      FramesRoundTrip([0, 0, 0, 0], segments);
      body := Frames([0, 0, 0, 0], segments);
    }
  }

  // -- joining what was cut -----------------------------------------------

  lemma WindowJoins(file: seq<byte>, offset: nat, a: nat, b: nat)
    ensures Window(file, offset, a) + Window(file, offset + a, b) == Window(file, offset, a + b)
  {
  }

  lemma {:induction false} CutJoins(file: seq<byte>, offset: nat, length: nat)
    ensures Flatten(Data(Ideal(file, Cut(offset, length)))) == Window(file, offset, length)
    decreases length
  {
    hide Window;
    var data := Data(Ideal(file, Cut(offset, length)));
    if length <= MAX_ELEMENT {
      assert data == [Window(file, offset, length)];
      assert Flatten(data[1..]) == [];
    } else {
      CutJoins(file, offset + MAX_ELEMENT, length - MAX_ELEMENT);
      WindowJoins(file, offset, MAX_ELEMENT, length - MAX_ELEMENT);
      assert data[1..] == Data(Ideal(file, Cut(offset + MAX_ELEMENT, length - MAX_ELEMENT)));
    }
  }

  /** One range, rejoined from the pieces it was cut into, every one of which is claimed. */
  function Assemble(r: Range, filed: Filed): (c: Result<(seq<byte>, Filed), Error>)
  {
    match ClaimAll(Pieces(r), filed)
    case Err(e) => Err(e)
    case Ok((parts, left)) => Ok((Flatten(parts), left))
  }

  function AssembleAll(wanted: seq<Range>, filed: Filed): (c: Result<seq<seq<byte>>, Error>)
  {
    if wanted == [] then Ok([])
    else
      match Assemble(wanted[0], filed)
      case Err(e) => Err(e)
      case Ok((data, left)) =>
        match AssembleAll(wanted[1..], left)
        case Err(e) => Err(e)
        case Ok(more) => Ok([data] + more)
  }

  lemma IdealAppend(file: seq<byte>, a: seq<Range>, b: seq<Range>)
    ensures Ideal(file, a + b) == Ideal(file, a) + Ideal(file, b)
  {
  }

  lemma {:induction false} AssemblesWindows(file: seq<byte>, wanted: seq<Range>, filed: Filed)
    requires OnFile(filed, Ideal(file, AllPieces(wanted)))
    ensures AssembleAll(wanted, filed) == Ok(Windows(file, wanted))
  {
    if wanted == [] {
      assert Windows(file, wanted) == [];
    } else {
      var head, rest := Pieces(wanted[0]), AllPieces(wanted[1..]);
      IdealAppend(file, head, rest);
      ClaimsInOrder(head, Ideal(file, head), filed, Ideal(file, rest));
      CutJoins(file, wanted[0].offset, wanted[0].length);
      var left := ClaimAll(head, filed).value.1;
      AssemblesWindows(file, wanted[1..], left);
      assert Windows(file, wanted) == [Window(file, wanted[0].offset, wanted[0].length)] + Windows(file, wanted[1..]);
    }
  }

  // -- many replies -------------------------------------------------------

  ghost predicate AllHonest(file: seq<byte>, batches: seq<seq<Range>>, bodies: seq<seq<byte>>)
  {
    |batches| == |bodies| && forall i | 0 <= i < |batches| :: Honest(file, batches[i], bodies[i])
  }

  /** Honest replies hold, offset by offset, just what the requests put together ask for. */
  lemma {:induction false} RepliesAdd(file: seq<byte>, batches: seq<seq<Range>>, bodies: seq<seq<byte>>, o: int)
    requires AllHonest(file, batches, bodies)
    ensures ParseAll(bodies).whole
    ensures DataAt(ParseAll(bodies).segments, o) == DataAt(Ideal(file, Flatten(batches)), o)
  {
    if bodies != [] {
      RepliesAdd(file, batches[1..], bodies[1..], o);
      var first, rest := Parse(bodies[0]), ParseAll(bodies[1..]);
      assert Honest(file, batches[0], bodies[0]);
      DataAtAppend(first.segments, rest.segments, o);
      IdealAppend(file, batches[0], Flatten(batches[1..]));
      DataAtAppend(Ideal(file, batches[0]), Ideal(file, Flatten(batches[1..])), o);
    } else {
      assert Flatten(batches) == [];
    }
  }

  lemma RepliesServe(file: seq<byte>, batches: seq<seq<Range>>, bodies: seq<seq<byte>>, filed: Filed)
    requires AllHonest(file, batches, bodies) && FiledAs(filed, ParseAll(bodies).segments)
    ensures OnFile(filed, Ideal(file, Flatten(batches)))
  {
    forall o: int
      ensures DataAt(ParseAll(bodies).segments, o) == DataAt(Ideal(file, Flatten(batches)), o)
    {
      RepliesAdd(file, batches, bodies, o);
    }
    FiledServes(filed, ParseAll(bodies).segments, Ideal(file, Flatten(batches)));
  }

  lemma {:induction false} ShortRangesUncut(wanted: seq<Range>)
    requires forall i | 0 <= i < |wanted| :: wanted[i].length <= MAX_ELEMENT
    ensures AllPieces(wanted) == wanted
  {
    if wanted != [] {
      ShortRangesUncut(wanted[1..]);
      assert Pieces(wanted[0]) == [wanted[0]];
    }
  }

  lemma {:induction false} CutFramable(offset: nat, length: nat, i: nat)
    requires 2 * (offset + length) < Pow256(8) && i < |Cut(offset, length)|
    ensures Framable(Cut(offset, length)[i].length, Cut(offset, length)[i].offset)
    decreases length
  {
    PowersOf256();
    if length > MAX_ELEMENT && i > 0 { CutFramable(offset + MAX_ELEMENT, length - MAX_ELEMENT, i - 1); }
  }

  lemma {:induction false} PiecesFramable(wanted: seq<Range>, i: nat)
    requires forall k | 0 <= k < |wanted| :: 2 * (wanted[k].offset + wanted[k].length) < Pow256(8)
    requires i < |AllPieces(wanted)|
    ensures AllPieces(wanted)[i].length <= MAX_ELEMENT
    ensures Framable(AllPieces(wanted)[i].length, AllPieces(wanted)[i].offset)
  {
    var head := Pieces(wanted[0]);
    if i < |head| { CutFramable(wanted[0].offset, wanted[0].length, i); }
    else { PiecesFramable(wanted[1..], i - |head|); }
  }

  lemma BatchAcceptable(wanted: seq<Range>, batches: seq<seq<Range>>, b: nat)
    requires forall k | 0 <= k < |wanted| :: 2 * (wanted[k].offset + wanted[k].length) < Pow256(8)
    requires Flatten(batches) == AllPieces(wanted) && b < |batches|
    requires Fits(batches[b], (r: Range) => r.length)
    ensures Acceptable(batches[b])
  {
    forall i | 0 <= i < |batches[b]|
      ensures batches[b][i].length <= MAX_ELEMENT && Framable(batches[b][i].length, batches[b][i].offset)
    {
      var k := BatchWithin(batches, b, i);
      PiecesFramable(wanted, k);
    }
    FitsBytes(batches[b], (r: Range) => r.length);
  }

  /**
    A vector read: for any ranges - overlapping, repeated, longer than one
    element, past the end of the file - exactly each range's bytes, in the order
    asked for, whatever order each reply came in. Every request is one the server
    takes (the precondition of `Answer`). The ranges must fit the 64-bit signed
    offset the request packs.
   */
  method Execute(server: Server, wanted: seq<Range>) returns (r: Result<seq<seq<byte>>, Error>)
    requires forall i | 0 <= i < |wanted| :: 2 * (wanted[i].offset + wanted[i].length) < Pow256(8)
    ensures r == Ok(Windows(server.file, wanted))
  {
    if wanted == [] {
      assert Windows(server.file, wanted) == [];
      return Ok([]);
    }
    var pieces := AllPieces(wanted);
    var batches := Batches(pieces, (r: Range) => r.length);
    var bodies: seq<seq<byte>> := [];
    for n := 0 to |batches|
      invariant AllHonest(server.file, batches[..n], bodies)
    {
      BatchAcceptable(wanted, batches, n);
      var body := server.Answer(batches[n]);
      bodies := bodies + [body];
    }
    assert batches[..|batches|] == batches;
    RepliesAdd(server.file, batches, bodies, 0);
    if forall i | 0 <= i < |wanted| :: wanted[i].length <= MAX_ELEMENT {
      ShortRangesUncut(wanted);
      r := Elements(server.file, wanted, batches, bodies);
    } else {
      var filed := ByOffset(bodies);
      RepliesServe(server.file, batches, bodies, filed.value);
      AssemblesWindows(server.file, wanted, filed.value);
      r := AssembleAll(wanted, filed.value);
    }
  }

  /** What came at each offset. */
  function Sent(bodies: seq<seq<byte>>): int -> seq<seq<byte>> { (o: int) => DataAt(ParseAll(bodies).segments, o) }

  lemma ClaimedFrom(bodies: seq<seq<byte>>, wanted: seq<Range>, filed: Filed)
    requires FiledAs(filed, ParseAll(bodies).segments)
    ensures ClaimedAs(wanted, Sent(bodies), Claimed(wanted, filed))
  {
    ClaimsExactly(wanted, filed);
    forall i | 0 <= i < |wanted| ensures AnswerTo(wanted, i, FiledAt(filed)) == AnswerTo(wanted, i, Sent(bodies)) {
      assert FiledAt(filed)(wanted[i].offset) == Sent(bodies)(wanted[i].offset);
    }
    ClaimedSame(wanted, FiledAt(filed), Sent(bodies), Claimed(wanted, filed));
  }

  lemma ClaimedSame(wanted: seq<Range>, a: int -> seq<seq<byte>>, b: int -> seq<seq<byte>>,
                    r: Result<seq<seq<byte>>, Error>)
    requires forall i | 0 <= i < |wanted| :: AnswerTo(wanted, i, a) == AnswerTo(wanted, i, b)
    requires ClaimedAs(wanted, a, r)
    ensures ClaimedAs(wanted, b, r)
  {
    hide AnswerTo;
    assert forall i | 0 <= i < |wanted| :: Served(wanted, i, a) == Served(wanted, i, b);
  }

  /**
    The case where every range is one element: the shortcut first, filing by
    offset if it declines. Whatever the replies hold: a malformed one is the error, and
    otherwise each range is answered by its own segment or the first that cannot be is.
   */
  method Elements(ghost file: seq<byte>, wanted: seq<Range>, ghost batches: seq<seq<Range>>, bodies: seq<seq<byte>>)
    returns (r: Result<seq<seq<byte>>, Error>)
    ensures AllHonest(file, batches, bodies) && Flatten(batches) == wanted ==> r == Ok(Windows(file, wanted))
    ensures if ParseAll(bodies).whole then ClaimedAs(wanted, Sent(bodies), r) else r == Err(Malformed)
    ensures r.Ok? ==> |r.value| == |wanted| && forall i | 0 <= i < |wanted| :: |r.value[i]| <= wanted[i].length
  {
    hide ClaimedAs, ParseAll, AllHonest;
    var quick := AsAsked(bodies, wanted);
    ghost var all := FiledExists(ParseAll(bodies).segments);
    ClaimedFrom(bodies, wanted, all);
    if AllHonest(file, batches, bodies) && Flatten(batches) == wanted {
      HonestClaims(file, batches, bodies, all);
    }
    if quick.Exactly? {
      ShortcutAgrees(bodies, wanted, all);
      ClaimsBounded(wanted, all);
      return Ok(quick.data);
    }
    if quick.Broken? { return Err(Malformed); }
    var filed := ByOffset(bodies);
    if filed.Err? { return Err(filed.error); }
    ClaimedFrom(bodies, wanted, filed.value);
    if AllHonest(file, batches, bodies) && Flatten(batches) == wanted {
      HonestClaims(file, batches, bodies, filed.value);
    }
    r := Claimed(wanted, filed.value);
    if r.Ok? { ClaimsBounded(wanted, filed.value); }
  }

  lemma HonestClaims(file: seq<byte>, batches: seq<seq<Range>>, bodies: seq<seq<byte>>, filed: Filed)
    requires AllHonest(file, batches, bodies) && FiledAs(filed, ParseAll(bodies).segments)
    ensures ParseAll(bodies).whole
    ensures ClaimAll(Flatten(batches), filed).Ok?
    ensures ClaimAll(Flatten(batches), filed).value.0 == Windows(file, Flatten(batches))
  {
    RepliesAdd(file, batches, bodies, 0);
    RepliesServe(file, batches, bodies, filed);
    var ideal := Ideal(file, Flatten(batches));
    assert ideal + [] == ideal;
    ClaimsInOrder(Flatten(batches), ideal, filed, []);
    assert Data(ideal) == Windows(file, Flatten(batches));
  }
}
