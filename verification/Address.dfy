/** What any address in a URL reads as: who, where, and on which port. */
module Address {
  import opened Wrappers
  import opened Text
  import P = Percent
  import opened Url

  // -- numbers as they may be written -------------------------------------

  /** Digits, with single underscores between some of them. */
  ghost predicate Numeral(s: string)
  {
    && s != "" && IsDigit(s[0]) && IsDigit(s[|s| - 1])
    && (forall i | 0 <= i < |s| :: IsDigit(s[i]) || s[i] == '_')
    && (forall i | 0 < i < |s| :: IsDigit(s[i - 1]) || IsDigit(s[i]))
  }

  function Digit(c: char): (d: nat)
    requires IsDigit(c)
  {
    c as int - '0' as int
  }

  /** The number in decimal notation, underscores apart. */
  ghost function Amount(s: string): nat
  {
    if s == "" then 0
    else
      var c, before := s[|s| - 1], Amount(s[..|s| - 1]);
      if IsDigit(c) then before * 10 + Digit(c) else before
  }

  /** What may follow digits, if `digit`, or an underscore. */
  ghost predicate GoesOn(s: string, digit: bool)
  {
    if s == "" then digit
    else IsDigit(s[|s| - 1]) && (digit || IsDigit(s[0])) && (forall i | 0 <= i < |s| :: IsDigit(s[i]) || s[i] == '_')
         && forall i | 0 < i < |s| :: IsDigit(s[i - 1]) || IsDigit(s[i])
  }

  lemma {:induction false} ReadsWhatGoesOn(s: string, acc: nat, digit: bool)
    ensures ReadDigits(s, acc, digit).Some? <==> GoesOn(s, digit)
  {
    if s != "" {
      if IsDigit(s[0]) { ReadsWhatGoesOn(s[1..], acc * 10 + Digit(s[0]), true); }
      else { ReadsWhatGoesOn(s[1..], acc, false); }
      StepsOn(s, digit);
    }
  }

  lemma StepsOn(s: string, digit: bool)
    requires s != ""
    ensures GoesOn(s, digit) <==>
            if IsDigit(s[0]) then GoesOn(s[1..], true) else s[0] == '_' && digit && GoesOn(s[1..], false)
  {
    var rest := s[1..];
    assert forall i | 0 <= i < |rest| :: rest[i] == s[i + 1];
    assert forall i | 0 < i < |s| :: s[i] == rest[i - 1];
  }

  lemma {:induction false} DigitThen(s: string, c: char, acc: nat, digit: bool)
    requires ReadDigits(s, acc, digit).Some? && IsDigit(c)
    ensures ReadDigits(s + "_" + [c], acc, digit) == Some(ReadDigits(s, acc, digit).value * 10 + Digit(c))
  {
    if s == "" {
      var more := s + "_" + [c];
      assert more[0] == '_' && more[1..] == [c] && [c][1..] == "";
      assert ReadDigits([c], acc, false) == Some(acc * 10 + Digit(c));
    } else {
      assert (s + "_" + [c])[1..] == s[1..] + "_" + [c];
      if IsDigit(s[0]) {
        DigitThen(s[1..], c, acc * 10 + Digit(s[0]), true);
      } else {
        DigitThen(s[1..], c, acc, false);
      }
    }
  }

  lemma Beginning(s: string, k: nat)
    requires Numeral(s) && 0 < k < |s| && IsDigit(s[k - 1])
    ensures Numeral(s[..k])
  {
    var t := s[..k];
    assert forall i | 0 <= i < k :: t[i] == s[i];
  }

  lemma LastDigits(s: string)
    requires Numeral(s)
    ensures s != ""
    ensures IsDigit(s[|s| - 1])
    ensures |s| > 1 && !IsDigit(s[|s| - 2]) ==> s[|s| - 2] == '_' && |s| > 2 && IsDigit(s[|s| - 3])
  {
  }

  lemma {:induction false} NumeralReads(s: string)
    requires Numeral(s)
    ensures ReadDigits(s, 0, false) == Some(Amount(s))
    decreases |s|
  {
    hide Numeral;
    LastDigits(s);
    var c, before := s[|s| - 1], s[..|s| - 1];
    assert s == before + [c];
    if |s| == 1 {
      assert s[1..] == "" && Amount(before) == 0;
    } else if IsDigit(s[|s| - 2]) {
      Beginning(s, |s| - 1);
      NumeralReads(before);
      OneMoreDigit(before, c, 0, false);
    } else {
      var front := s[..|s| - 2];
      assert before[..|before| - 1] == front && s == front + "_" + [c];
      Beginning(s, |s| - 2);
      NumeralReads(front);
      DigitThen(front, c, 0, false);
    }
  }

  lemma DigitsExactly(s: string)
    ensures ReadDigits(s, 0, false) == if Numeral(s) then Some(Amount(s)) else None
  {
    ReadsWhatGoesOn(s, 0, false);
    if Numeral(s) { NumeralReads(s); }
  }

  ghost predicate AllBlank(s: string) { forall i | 0 <= i < |s| :: Blank(s[i]) }

  /** Blanks on both sides of `core`. */
  ghost predicate Among(s: string, core: string)
  {
    exists front, back :: AllBlank(front) && AllBlank(back) && s == front + core + back
  }

  lemma BlankBefore(c: char, s: string, core: string)
    requires Blank(c) && Among(s, core)
    ensures Among([c] + s, core)
  {
    var front, back :| AllBlank(front) && AllBlank(back) && s == front + core + back;
    assert AllBlank([c] + front) && [c] + s == ([c] + front) + core + back;
  }

  lemma BlankAfter(c: char, s: string, core: string)
    requires Blank(c) && Among(s, core)
    ensures Among(s + [c], core)
  {
    var front, back :| AllBlank(front) && AllBlank(back) && s == front + core + back;
    assert AllBlank(back + [c]) && s + [c] == front + core + (back + [c]);
  }

  lemma {:induction false} Trimmed(s: string)
    ensures Among(s, Trim(s))
    ensures Trim(s) != "" ==> !Blank(Trim(s)[0]) && !Blank(Trim(s)[|Trim(s)| - 1])
    decreases |s|
  {
    hide Among, Blank;
    if s == "" || (!Blank(s[0]) && !Blank(s[|s| - 1])) {
      NothingAround(s);
    } else if Blank(s[0]) {
      Trimmed(s[1..]);
      BlankBefore(s[0], s[1..], Trim(s));
      assert s == [s[0]] + s[1..];
    } else {
      var less, last := s[..|s| - 1], s[|s| - 1];
      Trimmed(less);
      BlankAfter(last, less, Trim(s));
      assert s == less + [last];
    }
  }

  lemma NothingAround(s: string)
    ensures Among(s, s)
  {
    assert AllBlank("") && s == "" + s + "";
  }

  lemma {:induction false} TrimFinds(front: string, core: string, back: string)
    requires AllBlank(front) && AllBlank(back) && core != "" && !Blank(core[0]) && !Blank(core[|core| - 1])
    ensures Trim(front + core + back) == core
    decreases |front| + |back|
  {
    var s := front + core + back;
    if front != "" {
      assert s[1..] == front[1..] + core + back;
      TrimFinds(front[1..], core, back);
    } else if back != "" {
      assert s[0] == core[0] && s[..|s| - 1] == front + core + back[..|back| - 1];
      TrimFinds(front, core, back[..|back| - 1]);
    } else {
      assert s == core;
    }
  }

  /** A sign or none, and a numeral, with blanks around them. */
  ghost predicate Writes(text: string, front: string, sign: string, digits: string, back: string, n: int)
  {
    && text == front + (sign + digits) + back && AllBlank(front) && AllBlank(back)
    && (sign == "" || sign == "+" || sign == "-") && Numeral(digits)
    && var amount: int := Amount(digits); n == if sign == "-" then -amount else amount
  }

  lemma SignedReads(sign: string, digits: string)
    requires (sign == "" || sign == "+" || sign == "-") && Numeral(digits)
    ensures var core := sign + digits;
            && !Blank(core[0]) && !Blank(core[|core| - 1]) && (core[0] == '-' || core[0] == '+' <==> sign != "")
            && core == [core[0]] + core[1..] && (if sign == "" then core else core[1..]) == digits
  {
  }

  /** What blanks surround is read by its sign and the digits behind it. */
  lemma IntIs(text: string)
    ensures var s := Trim(text); var signed := s != "" && (s[0] == '-' || s[0] == '+');
            var digits := if signed then s[1..] else s;
            var amount: int := Amount(digits);
            IntOf(text) ==
            if !Numeral(digits) then None else Some(if signed && s[0] == '-' then -amount else amount)
  {
    var s := Trim(text);
    DigitsExactly(if s != "" && (s[0] == '-' || s[0] == '+') then s[1..] else s);
  }

  /** A text is read as a number exactly when it is one in blanks, underscores allowed between its digits. */
  lemma IntExactly(text: string, n: int)
    ensures IntOf(text) == Some(n) <==> exists front, sign, digits, back :: Writes(text, front, sign, digits, back, n)
  {
    hide IntOf, Numeral, Amount, Blank, Trim;
    var s := Trim(text);
    IntIs(text);
    if IntOf(text) == Some(n) {
      Trimmed(text);
      var signed := s != "" && (s[0] == '-' || s[0] == '+');
      var sign, digits := if signed then s[..1] else "", if signed then s[1..] else s;
      var front, back :| AllBlank(front) && AllBlank(back) && text == front + s + back;
      assert s == sign + digits;
      assert Writes(text, front, sign, digits, back, n);
    }
    if exists f, g, d, b :: Writes(text, f, g, d, b, n) {
      var f, g, d, b :| Writes(text, f, g, d, b, n);
      SignedReads(g, d);
      TrimFinds(f, g + d, b);
    }
  }

  // -- addresses ----------------------------------------------------------

  /** An address with colons in it stands in brackets. */
  function Bracketed(host: string): string { if ':' in host then "[" + host + "]" else host }

  function HostAndPort(host: string, port: string): string
  {
    Bracketed(host) + if port == "" then "" else ":" + port
  }

  /** A user and perhaps a password, or neither. */
  function Info(info: Option<string>): string { match info case None => "" case Some(i) => i + "@" }

  /** Hosts and ports that end where they seem to. */
  ghost predicate Plain(host: string, port: string)
  {
    && '/' !in host && '@' !in host && '/' !in port && '@' !in port && (port != "" ==> port[0] != ':')
    && (if ':' in host then ']' !in host else host != "" ==> host[0] != '[')
  }

  lemma HostPortReads(host: string, port: string)
    requires Plain(host, port)
    ensures HostPort(HostAndPort(host, port)) == (host, port)
  {
    if ':' in host {
      if port == "" {
        var h := "[" + host + "]" + "";
        assert h[1..] == host + [']'] + "";
        CutAt(host, ']', "");
      } else {
        assert "[" + host + "]" + (":" + port) == "[" + host + "]" + ":" + port;
        BracketedReads(host, port);
      }
    } else if port == "" {
      assert HostAndPort(host, port) == host;
    } else {
      assert host + (":" + port) == host + ":" + port;
      PlainReads(host, port);
    }
  }

  lemma InfoDivides(info: Option<string>, host: string, port: string)
    requires Plain(host, port) && (info.Some? ==> '/' !in info.value)
    ensures var a := Info(info) + HostAndPort(host, port);
            && '/' !in a && Authority(a).2 == HostAndPort(host, port)
            && Authority(a).0 == (if info.Some? then P.Unquote(Before(info.value, ':')) else "")
            && Authority(a).1 == (if info.Some? then P.Unquote(After(info.value, ':')) else "")
  {
    var where := HostAndPort(host, port);
    assert '@' !in where && '/' !in where;
    if info.Some? {
      assert Info(info) + where == info.value + ['@'] + where;
      CutAtLast(info.value, '@', where);
    } else {
      assert Info(info) + where == where;
    }
  }

  /** The port where none is written: 1094, but 80 for plain HTTP and 443 for HTTP over TLS and for S3. */
  ghost predicate Registered(scheme: string, port: int)
  {
    && (scheme in {"http", "dav"} ==> port == 80)
    && (scheme in {"https", "davs", "webdav", "s3"} ==> port == 443)
    && (!IsHttp(scheme) && !IsS3(scheme) ==> port == 1094)
  }

  /** Who, where and on which port, as the URL has it. */
  ghost predicate Reaches(u: Url, info: Option<string>, host: string, port: string)
  {
    && u.host == Lower(host) && (if port == "" then Registered(u.scheme, u.port) else IntOf(port) == Some(u.port))
    && u.username == (if info.Some? then P.Unquote(Before(info.value, ':')) else "")
    && u.password == (if info.Some? then P.Unquote(After(info.value, ':')) else "")
  }

  lemma LocatedThere(scheme: string, host: string, port: int, auth: (string, string, string), tail: string)
    ensures var u := Located(scheme, host, port, auth, tail);
            && u.scheme == scheme && u.host == Lower(host) && u.port == port
            && u.username == auth.0 && u.password == auth.1
  {
  }

  lemma AuthorityEnds(a: string, tail: string)
    requires '/' !in a && (tail == "" || tail[0] == '/')
    ensures Before(a + tail, '/') == a
  {
    if tail == "" {
      assert a + tail == a;
    } else {
      assert a + tail == a + ['/'] + tail[1..];
      CutAt(a, '/', tail[1..]);
    }
  }

  /**
    Whatever stands before the last `@` is the user, up to a colon, and the password;
    brackets hold an address with colons; no port is the scheme's own, and one that is no number
    is refused. Nothing else in the address is.
   */
  lemma AddressRead(scheme: string, info: Option<string>, host: string, port: string, tail: string)
    requires ':' !in scheme && Lower(scheme) != "file" && Plain(host, port) && (info.Some? ==> '/' !in info.value)
    requires tail == "" || tail[0] == '/'
    ensures var r := Parse(scheme + "://" + (Info(info) + HostAndPort(host, port) + tail));
            if port != "" && IntOf(port).None? then r == BadPort
            else r.Remote? && r.url.scheme == Lower(scheme) && Reaches(r.url, info, host, port)
  {
    hide Located, Authority, HostPort, P.Unquote;
    var a := Info(info) + HostAndPort(host, port);
    CutScheme(scheme, a + tail);
    InfoDivides(info, host, port);
    AuthorityEnds(a, tail);
    HostPortReads(host, port);
    var p := Port(port, Lower(scheme));
    if p.Some? { LocatedThere(Lower(scheme), host, p.value, Authority(a), Tail(a + tail)); }
  }

  // -- what is no server's ------------------------------------------------

  /** A text is a bare path exactly when `://` stands nowhere in it. */
  lemma {:induction false} NoMarkIsBare(text: string)
    ensures Parse(text).Bare? <==> forall i | 0 <= i < |text| :: !Mark(text[i..])
    ensures Parse(text).Bare? ==> Parse(text) == Bare(text)
  {
    NoMark(text);
  }

  lemma {:induction false} NoMark(s: string)
    ensures Cut(s).None? <==> forall i | 0 <= i < |s| :: !Mark(s[i..])
  {
    if s != "" {
      NoMark(s[1..]);
      assert s[0..] == s;
      assert forall i | 0 <= i < |s[1..]| :: s[1..][i..] == s[i + 1..];
      assert forall i | 0 < i < |s| :: s[i..] == s[1..][i - 1..];
    }
  }

  /** A local file, by a scheme in any case of letters; no path is the root. */
  lemma FileRead(scheme: string, path: string)
    requires ':' !in scheme && Lower(scheme) == "file"
    ensures Parse(scheme + "://" + path) == LocalFile(if path == "" then "/" else path)
  {
    CutScheme(scheme, path);
  }
}
