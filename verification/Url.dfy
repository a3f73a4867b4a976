/** Storage URLs: reading one from text, writing it out, and when the two are inverses. */
module Url {
  import opened Wrappers
  import opened Text
  import opened Percent
  import opened UrlPath
  import Query

  datatype Url = Url(
    scheme: string, host: string, port: int, path: string, username: string, password: string,
    query: map<string, string>, raw: string)

  /** What a text turns out to be; a bare path or a local file's URL is no server's. */
  datatype Parsed = Remote(url: Url) | LocalFile(path: string) | Bare(path: string) | BadPort

  predicate IsRoot(scheme: string) { scheme in {"root", "roots", "xroot", "xroots", "xrootd"} }

  predicate IsHttp(scheme: string) { scheme in {"http", "https", "dav", "davs", "webdav"} }

  predicate IsS3(scheme: string) { scheme == "s3" }

  // -- integers -----------------------------------------------------------

  predicate IsDigit(c: char) { '0' <= c <= '9' }

  function Decimal(n: nat): (s: string)
    ensures s != "" && forall i | 0 <= i < |s| :: IsDigit(s[i])
  {
    (if n < 10 then "" else Decimal(n / 10)) + [('0' as int + n % 10) as char]
  }

  function Str(n: int): string { if n < 0 then "-" + Decimal(-n) else Decimal(n) }

  /** Digits, single underscores between them. */
  function ReadDigits(s: string, acc: nat, digit: bool): Option<nat>
  {
    if s == "" then (if digit then Some(acc) else None)
    else if IsDigit(s[0]) then ReadDigits(s[1..], acc * 10 + (s[0] as int - '0' as int), true)
    else if s[0] == '_' && digit then ReadDigits(s[1..], acc, false)
    else None
  }

  predicate Blank(c: char) { c == ' ' || '\t' <= c <= '\r' || '\U{1C}' <= c <= '\U{1F}' }

  function Trim(s: string): string
    decreases |s|
  {
    if s == "" then ""
    else if Blank(s[0]) then Trim(s[1..])
    else if Blank(s[|s| - 1]) then Trim(s[..|s| - 1])
    else s
  }

  /** An integer as `int()` reads it. */
  function IntOf(text: string): Option<int>
  {
    var s := Trim(text);
    var signed := s != "" && (s[0] == '-' || s[0] == '+');
    match ReadDigits(if signed then s[1..] else s, 0, false)
    case None => None
    case Some(n) => var value: int := n; Some(if signed && s[0] == '-' then -value else value)
  }

  lemma {:induction false} OneMoreDigit(s: string, c: char, acc: nat, digit: bool)
    requires ReadDigits(s, acc, digit).Some? && IsDigit(c)
    ensures ReadDigits(s + [c], acc, digit) == Some(ReadDigits(s, acc, digit).value * 10 + (c as int - '0' as int))
  {
    if s == "" {
      assert s + [c] == [c] && [c][1..] == "";
    } else {
      assert (s + [c])[1..] == s[1..] + [c];
      if IsDigit(s[0]) {
        OneMoreDigit(s[1..], c, acc * 10 + (s[0] as int - '0' as int), true);
      } else {
        OneMoreDigit(s[1..], c, acc, false);
      }
    }
  }

  lemma {:induction false} DecimalReads(n: nat)
    ensures ReadDigits(Decimal(n), 0, false) == Some(n)
  {
    var c := ('0' as int + n % 10) as char;
    if n < 10 {
      assert Decimal(n) == [c] && [c][1..] == "";
    } else {
      DecimalReads(n / 10);
      OneMoreDigit(Decimal(n / 10), c, 0, false);
    }
  }

  /** Reading a written integer gives it back. */
  lemma IntRoundTrip(n: int)
    ensures Str(n) != "" && IntOf(Str(n)) == Some(n)
  {
    DecimalReads(if n < 0 then -n else n);
    var s := Str(n);
    assert !Blank(s[0]) && !Blank(s[|s| - 1]);
    if n < 0 { assert s[1..] == Decimal(-n); }
  }

  lemma PlainNumber(n: int, c: char)
    requires c == ']' || c == ':' || c == '/' || c == '@'
    ensures c !in Str(n)
  {
  }

  // -- the authority ------------------------------------------------------

  /** User, password, and `host:port`. */
  function Authority(a: string): (string, string, string)
  {
    if '@' in a
    then (Unquote(Before(BeforeLast(a, '@'), ':')), Unquote(After(BeforeLast(a, '@'), ':')), AfterLast(a, '@'))
    else ("", "", a)
  }

  function HostPort(h: string): (string, string)
  {
    if h != "" && h[0] == '[' then (Before(h[1..], ']'), Lstrip(After(h[1..], ']'), ':'))
    else (Before(h, ':'), After(h, ':'))
  }

  function DefaultPort(scheme: string): int
  {
    if scheme in {"https", "davs", "webdav", "s3"} then 443
    else if scheme in {"http", "dav"} then 80
    else 1094
  }

  function Port(value: string, scheme: string): Option<int>
  {
    if value == "" then Some(DefaultPort(scheme)) else IntOf(value)
  }

  function Netloc(host: string, port: int): string
  {
    (if ':' in host then "[" + host + "]" else host) + ":" + Str(port)
  }

  /** A bucket is a name and not an endpoint, and carries no port. */
  function Where(u: Url): string { if IsS3(u.scheme) then u.host else Netloc(u.host, u.port) }

  function Credentials(u: Url): string
  {
    if u.username == "" then ""
    else Quote(u.username, "") + (if u.password == "" then "" else ":" + Quote(u.password, "")) + "@"
  }

  // -- reading and writing ------------------------------------------------

  predicate Mark(s: string) { |s| >= 3 && s[0] == ':' && s[1] == '/' && s[2] == '/' }

  /** What stands before the first `://` and after it. */
  function Cut(s: string): Option<(string, string)>
  {
    if s == "" then None
    else if Mark(s) then Some(("", s[3..]))
    else match Cut(s[1..]) case Some(c) => Some(([s[0]] + c.0, c.1)) case None => None
  }

  /** The path and query behind the authority. */
  function Tail(rest: string): string
  {
    if '/' in rest then "/" + After(rest, '/') else "/"
  }

  function PathOf(scheme: string, tail: string): string
  {
    Normalize(if IsHttp(scheme) then UnquotePath(Before(tail, '?')) else Before(tail, '?'))
  }

  /** A URL with its scheme and host lowered and its query decoded. */
  function Located(scheme: string, host: string, port: int, auth: (string, string, string), tail: string): (u: Url)
  {
    var raw := After(tail, '?');
    Url(scheme, Lower(host), port, PathOf(scheme, tail), auth.0, auth.1, Query.Decode(raw), raw)
  }

  function ParseRest(scheme: string, rest: string): Parsed
  {
    var auth := Authority(Before(rest, '/'));
    var where := HostPort(auth.2);
    match Port(where.1, scheme)
    case None => BadPort
    case Some(port) => Remote(Located(scheme, where.0, port, auth, Tail(rest)))
  }

  function Parse(text: string): Parsed
  {
    match Cut(text)
    case None => Bare(text)
    case Some((before, rest)) =>
      var scheme := Lower(before);
      if scheme == "file" then LocalFile(if rest == "" then "/" else rest) else ParseRest(scheme, rest)
  }

  /** The path as it is written, its slashes at the front taken off. */
  function WrittenPath(u: Url): string
  {
    Lstrip(if IsHttp(u.scheme) then QuotePath(u.path) else u.path, '/')
  }

  function WrittenTail(u: Url): string
  {
    (if IsRoot(u.scheme) then "/" else "") + WrittenPath(u) + (if u.raw == "" then "" else "?" + u.raw)
  }

  function Rest(u: Url): string { Credentials(u) + Where(u) + "/" + WrittenTail(u) }

  function Print(u: Url): string { u.scheme + "://" + Rest(u) }

  // -- what any text reads as ---------------------------------------------

  /** Any URL has its scheme and host lowered, and its scheme is a remote one. */
  ghost predicate Remotely(u: Url)
  {
    ':' !in u.scheme && Lower(u.scheme) == u.scheme && u.scheme != "file" && Lower(u.host) == u.host
  }

  /** What holds of every URL read from text. */
  ghost predicate Readable(u: Url)
  {
    && '/' !in u.host && '@' !in u.host && (':' in u.host ==> ']' !in u.host)
    && Normalize(u.path) == u.path && (!IsHttp(u.scheme) ==> '?' !in u.path)
    && u.query == Query.Decode(u.raw)
  }

  lemma BeforeHas(s: string, c: char, d: char)
    requires d in Before(s, c)
    ensures d in s
  {
    assert c in s ==> s == Before(s, c) + [c] + After(s, c);
  }

  lemma HostReadable(a: string, c: char)
    requires '/' !in a && (c == '/' || c == '@')
    ensures c !in HostPort(Authority(a).2).0
    ensures ':' in HostPort(Authority(a).2).0 ==> ']' !in HostPort(Authority(a).2).0
  {
    var h := Authority(a).2;
    assert h == AfterLast(a, '@');
    assert h == a[|a| - |h|..];
    assert c !in h;
    if c in HostPort(h).0 {
      if h != "" && h[0] == '[' { BeforeHas(h[1..], ']', c); } else { BeforeHas(h, ':', c); }
    }
  }

  lemma PathReadable(scheme: string, tail: string)
    ensures Normalize(PathOf(scheme, tail)) == PathOf(scheme, tail)
    ensures !IsHttp(scheme) ==> '?' !in PathOf(scheme, tail)
  {
    var path := if IsHttp(scheme) then UnquotePath(Before(tail, '?')) else Before(tail, '?');
    NormalizeIdempotent(path);
    NormalizeDrops(path, '?');
  }

  lemma RestReadable(scheme: string, rest: string)
    ensures ParseRest(scheme, rest).Remote? ==> Readable(ParseRest(scheme, rest).url)
  {
    var a := Before(rest, '/');
    var host := HostPort(Authority(a).2).0;
    HostReadable(a, '/');
    HostReadable(a, '@');
    LowerKeeps(host, '/');
    LowerKeeps(host, '@');
    LowerKeeps(host, ':');
    LowerKeeps(host, ']');
    PathReadable(scheme, Tail(rest));
  }

  /** Every text that reads as a remote URL reads as a readable one. */
  lemma ParsedIsReadable(text: string)
    ensures Parse(text).Remote? ==> Readable(Parse(text).url)
  {
    if Cut(text).Some? { RestReadable(Lower(Cut(text).value.0), Cut(text).value.1); }
  }

  // -- reading what was written -------------------------------------------

  lemma {:induction false} CutScheme(scheme: string, rest: string)
    requires ':' !in scheme
    ensures Cut(scheme + "://" + rest) == Some((scheme, rest))
  {
    var s := scheme + "://" + rest;
    if scheme == "" {
      assert s[3..] == rest;
    } else {
      assert s[1..] == scheme[1..] + "://" + rest;
      assert s[0] == scheme[0] && scheme[0] in scheme && scheme == [scheme[0]] + scheme[1..];
      CutScheme(scheme[1..], rest);
    }
  }

  lemma PrintedRest(u: Url)
    requires Remotely(u)
    ensures Parse(Print(u)) == ParseRest(u.scheme, Rest(u))
  {
    CutScheme(u.scheme, Rest(u));
  }

  lemma CredentialsPlain(u: Url)
    ensures '/' !in Credentials(u)
  {
    NotQuoted(u.username, "", '/');
    NotQuoted(u.password, "", '/');
  }

  lemma WherePlain(u: Url, c: char)
    requires c == '/' || c == '@'
    ensures c in Where(u) <==> c in u.host
  {
    PlainNumber(u.port, c);
  }

  /** The authority and the tail come apart again. */
  lemma RestComesApart(u: Url)
    requires '/' !in u.host
    ensures Before(Rest(u), '/') == Credentials(u) + Where(u) && Tail(Rest(u)) == "/" + WrittenTail(u)
  {
    CredentialsPlain(u);
    WherePlain(u, '/');
    CutAt(Credentials(u) + Where(u), '/', WrittenTail(u));
    assert '/' in Rest(u);
  }

  /** The credentials read back; without a username, the password is lost. */
  lemma CredentialsRead(u: Url)
    requires '@' !in u.host
    ensures Authority(Credentials(u) + Where(u)) == (u.username, if u.username == "" then "" else u.password, Where(u))
  {
    WherePlain(u, '@');
    if u.username == "" {
      assert Credentials(u) + Where(u) == Where(u);
    } else {
      var user, pass := Quote(u.username, ""), Quote(u.password, "");
      var info := user + (if u.password == "" then "" else ":" + pass);
      assert Credentials(u) + Where(u) == info + ['@'] + Where(u);
      CutAtLast(info, '@', Where(u));
      InfoReads(u.username, u.password);
    }
  }

  lemma InfoReads(username: string, password: string)
    ensures var info := Quote(username, "") + (if password == "" then "" else ":" + Quote(password, ""));
            Unquote(Before(info, ':')) == username && Unquote(After(info, ':')) == password
  {
    var user, pass := Quote(username, ""), Quote(password, "");
    QuoteRoundTrip(username, "");
    QuoteRoundTrip(password, "");
    NotQuoted(username, "", ':');
    if password == "" {
      assert user + "" == user;
    } else {
      assert user + (":" + pass) == user + [':'] + pass;
      CutAt(user, ':', pass);
    }
  }

  /** The host is a plain one, or an address in brackets. */
  ghost predicate HostReads(u: Url)
  {
    if IsS3(u.scheme) then ':' !in u.host && (u.host != "" ==> u.host[0] != '[') && u.port == 443
    else if ':' in u.host then ']' !in u.host
    else u.host != "" ==> u.host[0] != '['
  }

  lemma BracketedReads(host: string, s: string)
    requires ']' !in host && s != "" && s[0] != ':'
    ensures HostPort("[" + host + "]" + ":" + s) == (host, s)
  {
    var h := "[" + host + "]" + ":" + s;
    assert h[1..] == host + [']'] + (":" + s);
    CutAt(host, ']', ":" + s);
    assert (":" + s)[1..] == s;
  }

  /** A bracket that opens no address swallows the port or is cut off. */
  lemma StrayBracket(host: string, s: string)
    requires ':' !in host && host != "" && host[0] == '[' && ']' !in s
    ensures var found := HostPort(host + ":" + s).0; if ']' in host then ']' !in found else ':' in found
  {
    if ']' !in host {
      var h := (host + ":" + s)[1..];
      assert h == host[1..] + ":" + s;
      assert h[|host| - 1] == ':';
    }
  }

  lemma PlainReads(host: string, s: string)
    requires ':' !in host && (host != "" ==> host[0] != '[')
    ensures HostPort(host + ":" + s) == (host, s)
  {
    CutAt(host, ':', s);
  }

  lemma NetlocReads(u: Url)
    requires Remotely(u) && !IsS3(u.scheme) && (':' in u.host ==> ']' !in u.host)
    ensures HostReads(u) ==> HostPort(Where(u)) == (u.host, Str(u.port))
    ensures !HostReads(u) ==> Lower(HostPort(Where(u)).0) != u.host
  {
    var s := Str(u.port);
    IntRoundTrip(u.port);
    PlainNumber(u.port, ':');
    PlainNumber(u.port, ']');
    if ':' in u.host {
      BracketedReads(u.host, s);
    } else if u.host != "" && u.host[0] == '[' {
      StrayBracket(u.host, s);
      LowerKeeps(HostPort(Where(u)).0, ':');
      LowerKeeps(HostPort(Where(u)).0, ']');
    } else {
      PlainReads(u.host, s);
    }
  }

  lemma BucketReads(u: Url)
    requires Remotely(u) && IsS3(u.scheme)
    ensures u.port == 443 && HostReads(u) ==> HostPort(Where(u)) == (u.host, "")
    ensures u.port == 443 && !HostReads(u) ==> Lower(HostPort(Where(u)).0) != u.host
    ensures Port(HostPort(Where(u)).1, u.scheme) == Some(u.port) && Lower(HostPort(Where(u)).0) == u.host ==>
            u.port == 443
  {
    var found := HostPort(u.host).0;
    if u.host != "" && u.host[0] == '[' {
      assert |found| <= |u.host[1..]|;
    } else if ':' in u.host {
      LowerKeeps(found, ':');
    }
  }

  /** Where the URL points reads back exactly when the host is one that can be written. */
  lemma WhereReads(u: Url)
    requires Remotely(u) && (':' in u.host ==> ']' !in u.host)
    ensures var where := HostPort(Where(u));
            (Lower(where.0) == u.host && Port(where.1, u.scheme) == Some(u.port)) <==> HostReads(u)
  {
    IntRoundTrip(u.port);
    if IsS3(u.scheme) { BucketReads(u); } else { NetlocReads(u); }
  }

  // -- the path and the query ---------------------------------------------

  lemma WrittenPathHasNoMark(u: Url)
    requires !IsHttp(u.scheme) ==> '?' !in u.path
    ensures '?' !in WrittenPath(u)
  {
    if '?' in WrittenPath(u) {
      LstripHas(if IsHttp(u.scheme) then QuotePath(u.path) else u.path, '?');
      QuotedHasNoMark(u.path);
    }
  }

  lemma Regrouped(root: bool, path: string, query: string)
    ensures "/" + ((if root then "/" else "") + path + query) == (if root then "//" else "/") + path + query
  {
    assert root ==> "//" == "/" + "/";
  }

  lemma MarkApart(path: string, raw: string)
    requires '?' !in path
    ensures var tail := path + (if raw == "" then "" else "?" + raw);
            Before(tail, '?') == path && After(tail, '?') == raw
  {
    if raw == "" {
      assert path + "" == path;
    } else {
      assert path + ("?" + raw) == path + ['?'] + raw;
      CutAt(path, '?', raw);
    }
  }

  /** The path with as many slashes at its front as are written. */
  function Slashed(u: Url): string { (if IsRoot(u.scheme) then "//" else "/") + WrittenPath(u) }

  /** The path and the raw query come apart again. */
  lemma TailComesApart(u: Url)
    requires !IsHttp(u.scheme) ==> '?' !in u.path
    ensures Before("/" + WrittenTail(u), '?') == Slashed(u) && After("/" + WrittenTail(u), '?') == u.raw
  {
    WrittenPathHasNoMark(u);
    Regrouped(IsRoot(u.scheme), WrittenPath(u), if u.raw == "" then "" else "?" + u.raw);
    var slashed := Slashed(u);
    assert '?' !in slashed;
    MarkApart(slashed, u.raw);
  }

  lemma SlashedPath(u: Url)
    requires Normalize(u.path) == u.path && !IsHttp(u.scheme)
    ensures Normalize(Slashed(u)) == u.path
  {
    hide Normalize;
    NormalStarts(u.path);
    ExtraSlash(u.path);
    assert "//" + WrittenPath(u) == "/" + ("/" + WrittenPath(u));
  }

  lemma SlashedHttpPath(u: Url)
    requires Normalize(u.path) == u.path && IsHttp(u.scheme)
    ensures UnquotePath(Slashed(u)) == Respelt(u.path)
  {
    NormalStarts(u.path);
    WrittenPathReads(u.path);
  }

  /** A path that can be read at all reads back, up to the spelling of escaped slashes in an HTTP one. */
  lemma PathReads(u: Url)
    requires Readable(u)
    ensures PathOf(u.scheme, "/" + WrittenTail(u)) ==
            if IsHttp(u.scheme) then Normalize(Respelt(u.path)) else u.path
  {
    TailComesApart(u);
    if IsHttp(u.scheme) { SlashedHttpPath(u); } else { SlashedPath(u); }
  }

  lemma RespeltPathIsSame(path: string)
    requires Normalize(path) == path
    ensures Normalize(Respelt(path)) == path <==> !HasSmall(path)
  {
    RespeltIsSame(path);
    NormalizeDrops(Respelt(path), 'f');
  }

  // -- inverses -----------------------------------------------------------

  /**
    Of the URLs that could be read from some text, the canonical ones: a host that
    can be written, no password without a username, and no escaped slash spelt
    `%2f` in an HTTP path.
   */
  ghost predicate Canonical(u: Url)
  {
    && Readable(u) && HostReads(u) && (u.username == "" ==> u.password == "")
    && (IsHttp(u.scheme) ==> !HasSmall(u.path))
  }

  /** What a written URL reads as, when it is one that can be read from some text. */
  lemma PrintedReads(u: Url)
    requires Remotely(u) && Readable(u)
    ensures var where := HostPort(Where(u));
            var path := if IsHttp(u.scheme) then Normalize(Respelt(u.path)) else u.path;
            var password := if u.username == "" then "" else u.password;
            Parse(Print(u)) ==
            match Port(where.1, u.scheme)
            case None => BadPort
            case Some(port) =>
              Remote(Url(u.scheme, Lower(where.0), port, path, u.username, password, u.query, u.raw))
  {
    PrintedRest(u);
    RestComesApart(u);
    CredentialsRead(u);
    TailComesApart(u);
    PathReads(u);
  }

  /** Reading undoes writing exactly for the canonical URLs. */
  lemma ReadingUndoesWriting(u: Url)
    requires Remotely(u)
    ensures Parse(Print(u)) == Remote(u) <==> Canonical(u)
  {
    ParsedIsReadable(Print(u));
    if Readable(u) {
      PrintedReads(u);
      WhereReads(u);
      RespeltPathIsSame(u.path);
    }
  }
}
