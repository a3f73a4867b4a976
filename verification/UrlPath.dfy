/** The path of a URL: percent-encoded once, with escaped slashes left alone, and normalised. */
module UrlPath {
  import opened Bytes
  import opened Text
  import opened Percent

  // -- escaped slashes ----------------------------------------------------

  /** An escaped slash, in either spelling. */
  predicate Slash(s: string) { |s| >= 3 && s[0] == '%' && s[1] == '2' && (s[2] == 'F' || s[2] == 'f') }

  ghost predicate HasSlash(s: string) { s != "" && (Slash(s) || HasSlash(s[1..])) }

  /** The segments between escaped slashes. */
  function Segments(s: string): (parts: seq<string>)
    ensures |parts| >= 1
    decreases |s|
  {
    if s == "" then [""]
    else if Slash(s) then [""] + Segments(s[3..])
    else
      var rest := Segments(s[1..]);
      [[s[0]] + rest[0]] + rest[1..]
  }

  function Quoted(parts: seq<string>): (r: seq<string>)
    ensures |r| == |parts| && forall i | 0 <= i < |parts| :: r[i] == Quote(parts[i], "/")
  {
    seq(|parts|, i requires 0 <= i < |parts| => Quote(parts[i], "/"))
  }

  function Unquoted(parts: seq<string>): (r: seq<string>)
    ensures |r| == |parts| && forall i | 0 <= i < |parts| :: r[i] == Unquote(parts[i])
  {
    seq(|parts|, i requires 0 <= i < |parts| => Unquote(parts[i]))
  }

  function QuotePath(path: string): string { Text.Joined(Quoted(Segments(path)), "%2F") }

  function UnquotePath(path: string): string { Text.Joined(Unquoted(Segments(path)), "%2F") }

  /** A path with its escaped slashes spelt `%2F`. */
  function Respelt(path: string): string { Text.Joined(Segments(path), "%2F") }

  /** Text before an escaped slash does not become part of one. */
  lemma {:induction false} SegmentsCut(a: string, rest: string)
    requires !HasSlash(a)
    ensures Segments(a + "%2F" + rest) == [a] + Segments(rest)
  {
    var s := a + "%2F" + rest;
    if a == "" {
      assert s[3..] == rest;
    } else {
      assert s[1..] == a[1..] + "%2F" + rest;
      assert !Slash(s);
      SegmentsCut(a[1..], rest);
      assert a == [a[0]] + a[1..];
    }
  }

  lemma {:induction false} NoSlashOneSegment(a: string)
    requires !HasSlash(a)
    ensures Segments(a) == [a]
  {
    if a != "" {
      NoSlashOneSegment(a[1..]);
      assert a == [a[0]] + a[1..];
    }
  }

  lemma {:induction false} JoinedSegments(parts: seq<string>)
    requires parts != [] && forall i | 0 <= i < |parts| :: !HasSlash(parts[i])
    ensures Segments(Text.Joined(parts, "%2F")) == parts
  {
    NoSlashOneSegment(parts[0]);
    if |parts| > 1 {
      SegmentsCut(parts[0], Text.Joined(parts[1..], "%2F"));
      JoinedSegments(parts[1..]);
    }
  }

  /** Quoting leaves a slash as it is, so what it writes holds no escaped one. */
  lemma {:induction false} QuotedHasNoSlash(bs: seq<byte>)
    ensures !HasSlash(QuoteBytes(bs, "/"))
  {
    if bs != [] {
      QuotedHasNoSlash(bs[1..]);
      var rest := QuoteBytes(bs[1..], "/");
      var head := QuoteByte(bs[0], "/");
      if |head| == 1 {
        assert (head + rest)[1..] == rest;
      } else {
        var s := head + rest;
        assert s[1..][1..][1..] == rest && !HasSlash(s[1..][1..][1..]);
        assert s[1] != '%' && s[2] != '%';
        assert !HasSlash(s[1..][1..]);
        assert !HasSlash(s[1..]);
      }
    }
  }

  /** Writing a path out and reading it back respells its escaped slashes, and changes nothing else. */
  lemma PathRoundTrip(path: string)
    ensures UnquotePath(QuotePath(path)) == Respelt(path)
  {
    var parts := Segments(path);
    forall i | 0 <= i < |parts| ensures !HasSlash(Quoted(parts)[i]) && Unquote(Quote(parts[i], "/")) == parts[i] {
      QuotedHasNoSlash(Utf8(parts[i]));
      QuoteRoundTrip(parts[i], "/");
    }
    JoinedSegments(Quoted(parts));
    assert Unquoted(Quoted(parts)) == parts;
  }

  /** One of its escaped slashes is spelt `%2f`. */
  predicate HasSmall(s: string)
    decreases |s|
  {
    s != "" && if Slash(s) then s[2] == 'f' || HasSmall(s[3..]) else HasSmall(s[1..])
  }

  function Count(s: string, c: char): nat { multiset(s)[c] }

  lemma RespeltUnfolds(s: string)
    requires s != ""
    ensures Respelt(s) == if Slash(s) then "%2F" + Respelt(s[3..]) else [s[0]] + Respelt(s[1..])
  {
  }

  ghost predicate Related(s: string, t: string, small: bool)
  {
    (t == s <==> !small) && (small ==> Count(t, 'f') < Count(s, 'f')) && Count(t, 'f') <= Count(s, 'f')
  }

  lemma RelatedBehind(a: string, b: string, s: string, t: string, small: bool)
    requires Related(s, t, small) && |a| == |b|
    requires Count(b, 'f') <= Count(a, 'f') && (a != b ==> Count(b, 'f') < Count(a, 'f'))
    ensures Related(a + s, b + t, small || a != b)
  {
    assert (a + s)[..|a|] == a && (b + t)[..|b|] == b && (a + s)[|a|..] == s && (b + t)[|b|..] == t;
  }

  lemma HeadRelated(s: string)
    requires s != ""
    ensures Slash(s) ==> |s| >= 3
    ensures Slash(s) ==> Count("%2F", 'f') <= Count(s[..3], 'f') && (s[..3] != "%2F" <==> s[2] == 'f')
    ensures Slash(s) && s[2] == 'f' ==> Count("%2F", 'f') < Count(s[..3], 'f')
  {
    if Slash(s) { assert s[..3] == ['%', '2', s[2]]; }
  }

  lemma SmallUnfolds(s: string)
    requires s != ""
    ensures HasSmall(s) == if Slash(s) then s[2] == 'f' || HasSmall(s[3..]) else HasSmall(s[1..])
  {
  }

  /** One step: a head respelt, and a tail that already is. */
  lemma RelatedStep(head: string, spelt: string, tail: string, rest: string, s: string, t: string, small: bool,
                    now: bool)
    requires Related(tail, rest, small) && |head| == |spelt| && s == head + tail && t == spelt + rest
    requires Count(spelt, 'f') <= Count(head, 'f') && (head != spelt ==> Count(spelt, 'f') < Count(head, 'f'))
    requires now == (small || head != spelt)
    ensures Related(s, t, now)
  {
    hide Related, Count;
    RelatedBehind(head, spelt, tail, rest, small);
  }

  lemma SlashRelated(s: string)
    requires Slash(s) && Related(s[3..], Respelt(s[3..]), HasSmall(s[3..]))
    ensures Related(s, Respelt(s), HasSmall(s))
  {
    hide Respelt, Related, Count, HasSmall;
    RespeltUnfolds(s);
    SmallUnfolds(s);
    HeadRelated(s);
    var head, tail, spelt := s[..3], s[3..], "%2F";
    RelatedStep(head, spelt, tail, Respelt(tail), s, Respelt(s), HasSmall(tail), HasSmall(s));
  }

  lemma PlainRelated(s: string)
    requires s != "" && !Slash(s) && Related(s[1..], Respelt(s[1..]), HasSmall(s[1..]))
    ensures Related(s, Respelt(s), HasSmall(s))
  {
    hide Respelt, Related, Count, HasSmall;
    RespeltUnfolds(s);
    SmallUnfolds(s);
    var head, tail := [s[0]], s[1..];
    RelatedStep(head, head, tail, Respelt(tail), s, Respelt(s), HasSmall(tail), HasSmall(s));
  }

  lemma {:induction false} RespeltRelated(s: string)
    ensures Related(s, Respelt(s), HasSmall(s))
    decreases |s|
  {
    if s != "" {
      hide Respelt, Related, HasSmall;
      RespeltRelated(if Slash(s) then s[3..] else s[1..]);
      if Slash(s) { SlashRelated(s); } else { PlainRelated(s); }
    }
  }

  /** Respelling changes nothing exactly when no escaped slash is spelt `%2f`; otherwise letters `f` are lost. */
  lemma RespeltIsSame(s: string)
    ensures Respelt(s) == s <==> !HasSmall(s)
    ensures HasSmall(s) ==> Count(Respelt(s), 'f') < Count(s, 'f')
  {
    RespeltRelated(s);
  }

  lemma QuotePathUnfolds(s: string)
    requires s != ""
    ensures QuotePath(s) == if Slash(s) then "%2F" + QuotePath(s[3..]) else Quote([s[0]], "/") + QuotePath(s[1..])
  {
    hide Quote;
    if Slash(s) {
      var rest := Segments(s[3..]);
      QuoteNothing("/");
      assert Quoted([""] + rest)[1..] == Quoted(rest);
    } else {
      var rest := Segments(s[1..]);
      var all := [[s[0]] + rest[0]] + rest[1..];
      QuoteAppends([s[0]], rest[0], "/");
      assert Quoted(all)[1..] == Quoted(rest)[1..] && Quoted(all)[0] == Quote([s[0]], "/") + Quoted(rest)[0];
    }
  }

  lemma SlashQuoted(path: string)
    ensures QuotePath("/" + path) == "/" + QuotePath(path)
  {
    QuotePathUnfolds("/" + path);
    QuoteSafe('/', "/");
    assert ("/" + path)[1..] == path;
  }

  lemma QuotedStarts(c: char)
    requires c != '/'
    ensures Quote([c], "/") != "" && Quote([c], "/")[0] != '/'
  {
    NothingNew([c], "/", '/');
    assert Utf8([c]) != [];
    assert Quote([c], "/") != "";
    assert Quote([c], "/")[0] in Quote([c], "/");
  }

  /** Slashes at the front are the same before quoting and after. */
  lemma {:induction false} LstripQuoted(path: string)
    ensures Lstrip(QuotePath(path), '/') == QuotePath(Lstrip(path, '/'))
  {
    if path != "" {
      QuotePathUnfolds(path);
      if path[0] == '/' {
        QuoteSafe('/', "/");
        var q := QuotePath(path);
        assert q[1..] == QuotePath(path[1..]);
        LstripQuoted(path[1..]);
      } else if !Slash(path) {
        QuotedStarts(path[0]);
      }
    } else {
      assert Quoted([""]) == [Quote("", "/")];
    }
  }

  /** A path written behind one slash reads back as itself, with its escaped slashes respelt. */
  lemma WrittenPathReads(path: string)
    ensures UnquotePath("/" + Lstrip(QuotePath(path), '/')) == Respelt("/" + Lstrip(path, '/'))
  {
    LstripQuoted(path);
    SlashQuoted(Lstrip(path, '/'));
    PathRoundTrip("/" + Lstrip(path, '/'));
  }

  lemma {:induction false} JoinedHas(parts: seq<string>, sep: string, c: char) returns (i: nat)
    requires c in Text.Joined(parts, sep) && c !in sep
    ensures i < |parts| && c in parts[i]
  {
    if c in parts[0] {
      i := 0;
    } else {
      i := JoinedHas(parts[1..], sep, c);
      i := i + 1;
    }
  }

  lemma {:induction false} LstripHas(s: string, c: char)
    requires c in Lstrip(s, '/')
    ensures c in s
  {
    if s != "" && s[0] == '/' { LstripHas(s[1..], c); }
  }

  /** A question mark in a name is escaped. */
  lemma QuotedHasNoMark(path: string)
    ensures '?' !in QuotePath(path)
  {
    if '?' in QuotePath(path) {
      var i := JoinedHas(Quoted(Segments(path)), "%2F", '?');
      NotQuoted(Segments(path)[i], "/", '?');
    }
  }

  // -- normalising --------------------------------------------------------

  /** What the components leave behind: dots vanish and two dots undo the last one. */
  function Resolve(parts: seq<string>, kept: seq<string>): seq<string>
    decreases |parts|
  {
    if parts == [] then kept
    else if parts[0] == "" || parts[0] == "." then Resolve(parts[1..], kept)
    else if parts[0] != ".." then Resolve(parts[1..], kept + [parts[0]])
    else if kept == [] then Resolve(parts[1..], kept)
    else Resolve(parts[1..], kept[..|kept| - 1])
  }

  /** Collapsed to one leading slash, a trailing one kept. */
  function Normalize(path: string): string
  {
    if path == "" then "/"
    else
      var kept := Resolve(Split("/" + Lstrip(path, '/'), '/'), []);
      "/" + Text.Joined(kept, "/") + (if path[|path| - 1] == '/' && kept != [] then "/" else "")
  }

  predicate Component(n: string) { n != "" && n != "." && n != ".." && '/' !in n }

  ghost predicate Components(parts: seq<string>) { forall i | 0 <= i < |parts| :: Component(parts[i]) }

  /** A normal path, spelt from its components. */
  function Spelt(parts: seq<string>, trailing: bool): string
  {
    "/" + Text.Joined(parts, "/") + (if trailing && parts != [] then "/" else "")
  }

  lemma {:induction false} ResolveLeavesComponents(parts: seq<string>, kept: seq<string>)
    requires Without(parts, '/') && Components(kept)
    ensures Components(Resolve(parts, kept))
    decreases |parts|
  {
    if parts != [] {
      if parts[0] == "" || parts[0] == "." { ResolveLeavesComponents(parts[1..], kept); }
      else if parts[0] != ".." { ResolveLeavesComponents(parts[1..], kept + [parts[0]]); }
      else if kept == [] { ResolveLeavesComponents(parts[1..], kept); }
      else { ResolveLeavesComponents(parts[1..], kept[..|kept| - 1]); }
    }
  }

  lemma {:induction false} ResolveKeeps(parts: seq<string>, kept: seq<string>, last: seq<string>)
    requires Components(parts) && (last == [] || last == [""])
    ensures Resolve(parts + last, kept) == kept + parts
    decreases |parts|
  {
    if parts == [] {
      assert parts + last == last;
      assert last == [""] ==> last[1..] == [];
    } else {
      assert (parts + last)[1..] == parts[1..] + last;
      ResolveKeeps(parts[1..], kept + [parts[0]], last);
      assert kept + [parts[0]] + parts[1..] == kept + parts;
    }
  }

  lemma {:induction false} JoinedStarts(parts: seq<string>)
    requires parts != [] && Components(parts)
    ensures Text.Joined(parts, "/") != "" && Text.Joined(parts, "/")[0] != '/'
    ensures Text.Joined(parts, "/")[|Text.Joined(parts, "/")| - 1] != '/'
  {
    if |parts| > 1 { JoinedStarts(parts[1..]); }
  }

  lemma {:induction false} JoinedTrailing(parts: seq<string>)
    requires parts != []
    ensures Text.Joined(parts + [""], "/") == Text.Joined(parts, "/") + "/"
  {
    assert (parts + [""])[1..] == parts[1..] + [""];
    if |parts| > 1 { JoinedTrailing(parts[1..]); }
  }

  lemma SpeltJoins(parts: seq<string>, last: seq<string>)
    requires Components(parts) && parts != [] && (last == [] || last == [""])
    ensures Spelt(parts, last != []) == Text.Joined([""] + (parts + last), "/")
  {
    if last == [] { assert parts + last == parts; } else { JoinedTrailing(parts); }
    assert ([""] + (parts + last))[1..] == parts + last;
  }

  lemma RootSplits()
    ensures Split("/", '/') == ["", ""] && Resolve(["", ""], []) == []
  {
    assert "/" == Text.Joined(["", ""], "/");
    JoinSplits(["", ""], '/');
    assert ["", ""][1..] == [""] && [""][1..] == [];
  }

  lemma SpeltStarts(parts: seq<string>, trailing: bool)
    requires Components(parts)
    ensures Spelt(parts, trailing)[0] == '/' && "/" + Lstrip(Spelt(parts, trailing), '/') == Spelt(parts, trailing)
  {
    var path := Spelt(parts, trailing);
    if parts == [] {
      assert path == "/" && path[1..] == "";
    } else {
      JoinedStarts(parts);
      assert path[1..] == Text.Joined(parts, "/") + (if trailing then "/" else "");
      assert path == "/" + path[1..];
    }
  }

  /** A path so spelt resolves to its components. */
  lemma SpeltResolves(parts: seq<string>, trailing: bool)
    requires Components(parts)
    ensures Resolve(Split(Spelt(parts, trailing), '/'), []) == parts
  {
    if parts == [] {
      RootSplits();
    } else {
      var last := if trailing then [""] else [];
      SpeltJoins(parts, last);
      JoinSplits([""] + (parts + last), '/');
      assert ([""] + (parts + last))[1..] == parts + last;
      ResolveKeeps(parts, [], last);
    }
  }

  lemma NormalizeSpells(path: string) returns (parts: seq<string>, trailing: bool)
    ensures Components(parts) && Normalize(path) == Spelt(parts, trailing)
  {
    if path == "" {
      parts, trailing := [], false;
    } else {
      SplitJoins("/" + Lstrip(path, '/'), '/');
      ResolveLeavesComponents(Split("/" + Lstrip(path, '/'), '/'), []);
      parts, trailing := Resolve(Split("/" + Lstrip(path, '/'), '/'), []), path[|path| - 1] == '/';
    }
  }

  lemma NormalStarts(path: string)
    requires Normalize(path) == path
    ensures path != "" && path[0] == '/' && "/" + Lstrip(path, '/') == path
  {
    var parts, trailing := NormalizeSpells(path);
    SpeltStarts(parts, trailing);
  }

  lemma SpeltIsNormal(parts: seq<string>, trailing: bool)
    requires Components(parts)
    ensures Normalize(Spelt(parts, trailing)) == Spelt(parts, trailing)
  {
    SpeltStarts(parts, trailing);
    SpeltResolves(parts, trailing);
    if parts != [] { JoinedStarts(parts); }
  }

  /** Normalising twice is normalising once; a normal path is one spelt from components that are no dots. */
  lemma NormalizeIdempotent(path: string)
    ensures Normalize(Normalize(path)) == Normalize(path)
  {
    var parts, trailing := NormalizeSpells(path);
    SpeltIsNormal(parts, trailing);
  }

  lemma NormalExactly(path: string)
    ensures Normalize(path) == path <==> exists parts, trailing :: Components(parts) && path == Spelt(parts, trailing)
  {
    var parts, trailing := NormalizeSpells(path);
    if exists ps, t :: Components(ps) && path == Spelt(ps, t) {
      var ps, t :| Components(ps) && path == Spelt(ps, t);
      SpeltIsNormal(ps, t);
    }
  }

  /** A slash more at the front makes no difference. */
  lemma ExtraSlash(path: string)
    requires path != "" && path[0] == '/'
    ensures Normalize("/" + path) == Normalize(path)
  {
    var longer := "/" + path;
    assert longer[1..] == path;
    assert Lstrip(longer, '/') == Lstrip(path, '/');
    assert longer[|longer| - 1] == path[|path| - 1];
  }

  // -- what normalising takes out -----------------------------------------

  lemma {:induction false} ResolveAppends(a: seq<string>, b: seq<string>, kept: seq<string>)
    ensures Resolve(a + b, kept) == Resolve(b, Resolve(a, kept))
    decreases |a|
  {
    if a == [] {
      assert a + b == b;
    } else {
      assert (a + b)[1..] == a[1..] + b;
      if a[0] == "" || a[0] == "." { ResolveAppends(a[1..], b, kept); }
      else if a[0] != ".." { ResolveAppends(a[1..], b, kept + [a[0]]); }
      else if kept == [] { ResolveAppends(a[1..], b, kept); }
      else { ResolveAppends(a[1..], b, kept[..|kept| - 1]); }
    }
  }

  lemma SplitAppends(a: string, b: string)
    ensures Split(a + "/" + b, '/') == Split(a, '/') + Split(b, '/')
  {
    var p, q := Split(a, '/'), Split(b, '/');
    SplitJoins(a, '/');
    SplitJoins(b, '/');
    JoinParts(p + q, "/", |p|);
    assert (p + q)[..|p|] == p && (p + q)[|p|..] == q;
    JoinSplits(p + q, '/');
  }

  function Kept(path: string): seq<string> { Resolve(Split(path, '/'), []) }

  lemma SlashFirst(rest: string)
    ensures Kept("/" + rest) == Kept(rest)
  {
    CutOnce("", '/', rest);
    assert "" + ['/'] + rest == "/" + rest && ([""] + Split(rest, '/'))[1..] == Split(rest, '/');
  }

  lemma {:induction false} LstripKeeps(path: string)
    ensures Kept(Lstrip(path, '/')) == Kept(path)
  {
    if path != "" && path[0] == '/' {
      assert path == "/" + path[1..];
      SlashFirst(path[1..]);
      LstripKeeps(path[1..]);
    }
  }

  /** A normal path is its components, and whether it ended in a slash. */
  lemma NormalizeIs(path: string)
    ensures Normalize(path) == Spelt(Kept(path), path != "" && path[|path| - 1] == '/')
  {
    LstripKeeps(path);
    SlashFirst(Lstrip(path, '/'));
    if path == "" {
      assert Split("", '/') == [""] && [""][1..] == [];
    }
  }

  /** Components that leave nothing behind wherever they stand. */
  ghost predicate Idle(parts: seq<string>)
  {
    parts == [""] || parts == ["."] || (|parts| == 2 && Component(parts[0]) && parts[1] == "..")
  }

  lemma IdleResolves(parts: seq<string>, kept: seq<string>)
    requires Idle(parts)
    ensures Resolve(parts, kept) == kept && Without(parts, '/')
  {
    if |parts| == 2 {
      assert parts[1..] == [".."] && [".."][1..] == [];
      assert (kept + [parts[0]])[..|kept|] == kept;
    } else {
      assert parts[1..] == [];
    }
  }

  lemma KeptAppends(a: string, b: string)
    ensures Kept(a + "/" + b) == Resolve(Split(b, '/'), Kept(a))
  {
    SplitAppends(a, b);
    ResolveAppends(Split(a, '/'), Split(b, '/'), []);
  }

  lemma IdleAppends(a: string, idle: seq<string>)
    requires Idle(idle)
    ensures Kept(a + "/" + Text.Joined(idle, "/")) == Kept(a)
  {
    IdleResolves(idle, Kept(a));
    JoinSplits(idle, '/');
    KeptAppends(a, Text.Joined(idle, "/"));
  }

  lemma IdleKept(a: string, idle: seq<string>, tail: string)
    requires Idle(idle) && (tail == "" || tail[0] == '/')
    ensures Kept(a + "/" + Text.Joined(idle, "/") + tail) == Kept(a + tail)
  {
    hide Kept, Text.Joined, Idle, Resolve, Split;
    var front := a + "/" + Text.Joined(idle, "/");
    IdleAppends(a, idle);
    if tail == "" {
      assert front + tail == front && a + tail == a;
    } else {
      var rest := tail[1..];
      assert tail == "/" + rest;
      assert front + tail == front + "/" + rest && a + tail == a + "/" + rest;
      KeptAppends(front, rest);
      KeptAppends(a, rest);
    }
  }

  /**
    Nothing between two slashes, one dot, and a component with two dots behind it: each
    can be taken out, anywhere in a path that goes on, and at the end of one unless that
    changes whether it ends in a slash.
   */
  lemma NormalizeTakesOut(a: string, idle: seq<string>, tail: string)
    requires Idle(idle) && (tail == "" || tail[0] == '/')
    requires tail == "" ==> idle != [""] && (a == "" || a[|a| - 1] != '/')
    ensures Normalize(a + "/" + Text.Joined(idle, "/") + tail) == Normalize(a + tail)
  {
    hide Kept, Resolve, Split, Normalize, Spelt;
    var middle := Text.Joined(idle, "/");
    IdleKept(a, idle, tail);
    NormalizeIs(a + "/" + middle + tail);
    NormalizeIs(a + tail);
    if tail == "" {
      IdleEnds(idle);
      assert a + tail == a && (a + "/" + middle + tail)[|a| + |middle|] == '.';
    } else {
      assert (a + "/" + middle + tail)[|a| + |middle| + |tail|] == tail[|tail| - 1] == (a + tail)[|a| + |tail| - 1];
    }
  }

  lemma IdleEnds(idle: seq<string>)
    requires Idle(idle) && idle != [""]
    ensures var middle := Text.Joined(idle, "/"); middle != "" && middle[|middle| - 1] == '.'
  {
  }

  lemma UpFromRoot()
    ensures Kept("/..") == [] && Kept("") == []
  {
    var parts := ["", ".."];
    assert parts[1..] == [".."] && [".."][1..] == [] && [""][1..] == [];
    assert Text.Joined(parts, "/") == "/..";
    JoinSplits(parts, '/');
  }

  /** The root is its own parent. */
  lemma RootHasNoParent(tail: string)
    requires tail == "" || tail[0] == '/'
    ensures Normalize("/.." + tail) == Normalize(tail)
  {
    hide Kept, Split, Resolve;
    var path := "/.." + tail;
    NormalizeIs(path);
    NormalizeIs(tail);
    UpFromRoot();
    if tail == "" {
      assert path == "/..";
    } else {
      var rest := tail[1..];
      assert tail == "/" + rest && "" + "/" + rest == tail;
      assert path == "/.." + "/" + rest;
      KeptAppends("/..", rest);
      KeptAppends("", rest);
      assert path[|tail| + 2] == tail[|tail| - 1];
    }
  }

  // -- what normalising does not bring in ---------------------------------

  function Total(parts: seq<string>, c: char): nat
  {
    if parts == [] then 0 else Count(parts[0], c) + Total(parts[1..], c)
  }

  lemma {:induction false} TotalAppends(a: seq<string>, b: seq<string>, c: char)
    ensures Total(a + b, c) == Total(a, c) + Total(b, c)
  {
    if a == [] {
      assert a + b == b;
    } else {
      assert (a + b)[1..] == a[1..] + b;
      TotalAppends(a[1..], b, c);
    }
  }

  lemma {:induction false} CountJoined(parts: seq<string>, c: char)
    requires c != '/'
    ensures Count(Text.Joined(parts, "/"), c) == Total(parts, c)
  {
    if |parts| > 1 { CountJoined(parts[1..], c); }
    if |parts| == 1 { assert parts[1..] == []; }
  }

  lemma {:induction false} ResolveDrops(parts: seq<string>, kept: seq<string>, c: char)
    ensures Total(Resolve(parts, kept), c) <= Total(parts, c) + Total(kept, c)
    decreases |parts|
  {
    if parts != [] {
      if parts[0] == "" || parts[0] == "." {
        ResolveDrops(parts[1..], kept, c);
      } else if parts[0] != ".." {
        TotalAppends(kept, [parts[0]], c);
        assert [parts[0]][1..] == [];
        ResolveDrops(parts[1..], kept + [parts[0]], c);
      } else if kept == [] {
        ResolveDrops(parts[1..], kept, c);
      } else {
        TotalAppends(kept[..|kept| - 1], [kept[|kept| - 1]], c);
        assert kept == kept[..|kept| - 1] + [kept[|kept| - 1]];
        ResolveDrops(parts[1..], kept[..|kept| - 1], c);
      }
    }
  }

  lemma {:induction false} LstripDrops(s: string, c: char)
    ensures Count(Lstrip(s, '/'), c) <= Count(s, c)
  {
    if s != "" && s[0] == '/' {
      assert s == [s[0]] + s[1..];
      LstripDrops(s[1..], c);
    }
  }

  /** Normalising adds no character but slashes. */
  lemma NormalizeDrops(path: string, c: char)
    requires c != '/'
    ensures Count(Normalize(path), c) <= Count(path, c)
  {
    if path != "" {
      var full := "/" + Lstrip(path, '/');
      var parts := Split(full, '/');
      var kept := Resolve(parts, []);
      SplitJoins(full, '/');
      CountJoined(parts, c);
      ResolveDrops(parts, [], c);
      CountJoined(kept, c);
      LstripDrops(path, c);
    }
  }
}
