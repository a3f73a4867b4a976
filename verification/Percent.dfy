/**
  Percent-encoding (section 2.1 of RFC 3986) of text held as UTF-8, as the
  standard library of the client's language does it: encoding escapes every byte
  that is neither unreserved nor named safe; decoding takes each run of ASCII
  by itself, leaves alone an escape that is none, and puts U+FFFD for each
  stretch of bytes that is not UTF-8.
 */
module Percent {
  import opened Bytes
  import opened Text

  // -- UTF-8 --------------------------------------------------------------

  /** A scalar value as UTF-8 (section 3 of RFC 3629). */
  function Utf8Char(c: char): (bs: seq<byte>)
    ensures 1 <= |bs| <= 4
  {
    var n := c as int;
    if n < 0x80 then [n]
    else if n < 0x800 then [0xC0 + n / 64, 0x80 + n % 64]
    else if n < 0x1_0000 then [0xE0 + n / 4096, 0x80 + n / 64 % 64, 0x80 + n % 64]
    else [0xF0 + n / 262144, 0x80 + n / 4096 % 64, 0x80 + n / 64 % 64, 0x80 + n % 64]
  }

  function Utf8(s: string): seq<byte>
  {
    if s == "" then [] else Utf8Char(s[0]) + Utf8(s[1..])
  }

  const REPLACEMENT: char := '\U{FFFD}'

  predicate Tail(bs: seq<byte>, i: nat) { i < |bs| && 0x80 <= bs[i] <= 0xBF }

  /** The second byte may not make the form overlong, a surrogate, or too large. */
  predicate Second(bs: seq<byte>)
    requires bs != []
  {
    && Tail(bs, 1)
    && (bs[0] == 0xE0 ==> bs[1] >= 0xA0) && (bs[0] == 0xED ==> bs[1] <= 0x9F)
    && (bs[0] == 0xF0 ==> bs[1] >= 0x90) && (bs[0] == 0xF4 ==> bs[1] <= 0x8F)
  }

  /** The six bits a tail byte carries. */
  function Bits(bs: seq<byte>, i: nat): (n: nat)
    requires Tail(bs, i)
    ensures n < 64
  {
    var b: int := bs[i];
    b - 0x80
  }

  /** The first character and how many bytes it takes; an ill-formed start takes its longest well-formed part. */
  function FirstChar(bs: seq<byte>): (r: (char, nat))
    requires bs != []
    ensures 1 <= r.1 <= |bs|
  {
    var a: int := bs[0];
    if a < 0x80 then (a as char, 1)
    else if !(0xC2 <= a <= 0xF4) || !Second(bs) then (REPLACEMENT, 1)
    else if a < 0xE0 then (((a - 0xC0) * 64 + Bits(bs, 1)) as char, 2)
    else if !Tail(bs, 2) then (REPLACEMENT, 2)
    else if a < 0xF0 then (((a - 0xE0) * 4096 + Bits(bs, 1) * 64 + Bits(bs, 2)) as char, 3)
    else if !Tail(bs, 3) then (REPLACEMENT, 3)
    else (((a - 0xF0) * 262144 + Bits(bs, 1) * 4096 + Bits(bs, 2) * 64 + Bits(bs, 3)) as char, 4)
  }

  function FromUtf8(bs: seq<byte>): (s: string)
    decreases |bs|
  {
    if bs == [] then "" else [FirstChar(bs).0] + FromUtf8(bs[FirstChar(bs).1..])
  }

  lemma InSixes(n: nat)
    ensures n == n / 64 * 64 + n % 64 && n / 4096 == n / 64 / 64 && n / 262144 == n / 4096 / 64
    ensures n / 64 == n / 4096 * 64 + n / 64 % 64 && n / 4096 == n / 262144 * 64 + n / 4096 % 64
  {
  }

  lemma ReadsTwo(n: nat, bs: seq<byte>)
    requires 0x80 <= n < 0x800 && |bs| >= 2 && bs[0] == 0xC0 + n / 64 && bs[1] == 0x80 + n % 64
    ensures FirstChar(bs) == (n as char, 2)
  {
    InSixes(n);
  }

  lemma ReadsThree(n: nat, bs: seq<byte>)
    requires 0x800 <= n < 0x1_0000 && !(0xD800 <= n < 0xE000) && |bs| >= 3
    requires bs[0] == 0xE0 + n / 4096 && bs[1] == 0x80 + n / 64 % 64 && bs[2] == 0x80 + n % 64
    ensures FirstChar(bs) == (n as char, 3)
  {
    InSixes(n);
  }

  lemma ReadsFour(n: nat, bs: seq<byte>)
    requires 0x1_0000 <= n < 0x11_0000 && |bs| >= 4
    requires bs[0] == 0xF0 + n / 262144 && bs[1] == 0x80 + n / 4096 % 64
    requires bs[2] == 0x80 + n / 64 % 64 && bs[3] == 0x80 + n % 64
    ensures FirstChar(bs) == (n as char, 4)
  {
    InSixes(n);
  }

  lemma FirstCharReads(c: char, rest: seq<byte>)
    ensures FirstChar(Utf8Char(c) + rest) == (c, |Utf8Char(c)|)
  {
    var n, bs := c as int, Utf8Char(c) + rest;
    if n < 0x80 {
    } else if n < 0x800 {
      ReadsTwo(n, bs);
    } else if n < 0x1_0000 {
      ReadsThree(n, bs);
    } else {
      ReadsFour(n, bs);
    }
  }

  /** Decoding UTF-8 undoes encoding it. */
  lemma {:induction false} Utf8RoundTrip(s: string)
    ensures FromUtf8(Utf8(s)) == s
  {
    if s != "" {
      FirstCharReads(s[0], Utf8(s[1..]));
      assert Utf8(s)[|Utf8Char(s[0])|..] == Utf8(s[1..]);
      Utf8RoundTrip(s[1..]);
    }
  }

  lemma {:induction false} Utf8Appends(a: string, b: string)
    ensures Utf8(a + b) == Utf8(a) + Utf8(b)
  {
    if a == "" {
      assert a + b == b;
    } else {
      assert (a + b)[1..] == a[1..] + b;
      Utf8Appends(a[1..], b);
    }
  }

  // -- escapes ------------------------------------------------------------

  predicate Unreserved(c: char)
  {
    'a' <= c <= 'z' || 'A' <= c <= 'Z' || '0' <= c <= '9' || c == '_' || c == '.' || c == '-' || c == '~'
  }

  predicate Kept(c: char, safe: string) { Unreserved(c) || c in safe }

  /** Safe characters are ASCII, and the escape sign is not one of them. */
  ghost predicate Usable(safe: string)
  {
    forall c | c in safe :: c < '\U{80}' && c != '%'
  }

  function Hex(n: nat): (c: char)
    requires n < 16
    ensures Unreserved(c) && c != 'f' && (c == 'F' <==> n == 15) && (c == '2' <==> n == 2)
  {
    if n < 10 then ('0' as int + n) as char else ('A' as int + n - 10) as char
  }

  predicate IsHex(c: char) { '0' <= c <= '9' || 'A' <= c <= 'F' || 'a' <= c <= 'f' }

  function HexValue(c: char): (n: nat)
    requires IsHex(c)
    ensures n < 16
  {
    if c <= '9' then c as int - '0' as int
    else if c <= 'F' then c as int - 'A' as int + 10
    else c as int - 'a' as int + 10
  }

  function QuoteByte(b: byte, safe: string): (s: string)
  {
    if b < 0x80 && Kept(b as char, safe) then [b as char] else ['%', Hex(b / 16), Hex(b % 16)]
  }

  function QuoteBytes(bs: seq<byte>, safe: string): string
  {
    if bs == [] then "" else QuoteByte(bs[0], safe) + QuoteBytes(bs[1..], safe)
  }

  function Quote(s: string, safe: string): string { QuoteBytes(Utf8(s), safe) }

  predicate Escape(s: string) { |s| >= 3 && s[0] == '%' && IsHex(s[1]) && IsHex(s[2]) }

  ghost predicate Ascii(s: string) { forall i | 0 <= i < |s| :: s[i] < '\U{80}' }

  /** The bytes that ASCII text spells. */
  function Unescape(s: string): seq<byte>
    requires Ascii(s)
    decreases |s|
  {
    if s == "" then []
    else if Escape(s) then [HexValue(s[1]) * 16 + HexValue(s[2])] + Unescape(s[3..])
    else [s[0] as int] + Unescape(s[1..])
  }

  /** How long a run of ASCII the text begins with. */
  function Run(s: string): (n: nat)
    ensures n <= |s| && Ascii(s[..n]) && (n < |s| ==> s[n] >= '\U{80}')
  {
    if s == "" || s[0] >= '\U{80}' then 0
    else
      var n := 1 + Run(s[1..]);
      assert s[..n] == [s[0]] + s[1..][..n - 1];
      n
  }

  function Unquote(s: string): string
    decreases |s|
  {
    if s == "" then ""
    else if Run(s) > 0 then FromUtf8(Unescape(s[..Run(s)])) + Unquote(s[Run(s)..])
    else [s[0]] + Unquote(s[1..])
  }

  // -- what quoting writes ------------------------------------------------

  lemma ByteReads(b: byte, safe: string, rest: string)
    requires Usable(safe) && Ascii(rest)
    ensures Ascii(QuoteByte(b, safe) + rest) && Unescape(QuoteByte(b, safe) + rest) == [b] + Unescape(rest)
  {
    var head := QuoteByte(b, safe);
    assert (head + rest)[|head|..] == rest;
  }

  lemma {:induction false} QuotedThen(bs: seq<byte>, safe: string, rest: string)
    requires Usable(safe) && Ascii(rest)
    ensures Ascii(QuoteBytes(bs, safe) + rest) && Unescape(QuoteBytes(bs, safe) + rest) == bs + Unescape(rest)
  {
    hide Unescape, QuoteByte;
    if bs == [] {
      assert QuoteBytes(bs, safe) + rest == rest;
    } else {
      var head, more := QuoteByte(bs[0], safe), QuoteBytes(bs[1..], safe) + rest;
      QuotedThen(bs[1..], safe, rest);
      ByteReads(bs[0], safe, more);
      assert QuoteBytes(bs, safe) + rest == head + more;
    }
  }

  lemma QuotedBytes(bs: seq<byte>, safe: string)
    requires Usable(safe)
    ensures Ascii(QuoteBytes(bs, safe)) && Unescape(QuoteBytes(bs, safe)) == bs
  {
    QuotedThen(bs, safe, "");
    assert QuoteBytes(bs, safe) + "" == QuoteBytes(bs, safe);
  }

  lemma AsciiReads(q: string, s: string)
    requires Ascii(q) && Unescape(q) == Utf8(s)
    ensures Unquote(q) == s
  {
    Utf8RoundTrip(s);
    assert q[..|q|] == q && q[|q|..] == "";
    assert Run(q) == |q|;
  }

  /** Unquoting undoes quoting, whatever else is left unescaped. */
  lemma QuoteRoundTrip(s: string, safe: string)
    requires Usable(safe)
    ensures Unquote(Quote(s, safe)) == s
  {
    QuotedBytes(Utf8(s), safe);
    AsciiReads(Quote(s, safe), s);
  }

  ghost predicate NoEscapes(s: string) { forall i | 0 <= i < |s| :: !Escape(s[i..]) }

  lemma NoneIn(s: string, from: nat, to: nat)
    requires from <= to <= |s| && NoEscapes(s)
    ensures NoEscapes(s[from..to])
  {
    var part := s[from..to];
    forall i | 0 <= i < |part| ensures !Escape(part[i..]) {
      assert part[i..] == s[from + i..][..to - from - i];
    }
  }

  lemma {:induction false} PlainBytes(s: string)
    requires Ascii(s) && NoEscapes(s)
    ensures Unescape(s) == Utf8(s)
  {
    if s != "" {
      assert s[0..] == s && s[1..] == s[1..|s|];
      NoneIn(s, 1, |s|);
      PlainBytes(s[1..]);
    }
  }

  /** Text without escapes is left alone, whatever percent signs and characters beyond ASCII it holds. */
  lemma {:induction false} UnquoteLeaves(s: string)
    requires NoEscapes(s)
    ensures Unquote(s) == s
    decreases |s|
  {
    hide Unescape, Escape, Utf8, FromUtf8;
    if s != "" {
      var n := Run(s);
      var k := if n > 0 then n else 1;
      assert s[k..] == s[k..|s|] && s == s[..k] + s[k..];
      NoneIn(s, k, |s|);
      UnquoteLeaves(s[k..]);
      if n > 0 {
        assert s[..n] == s[0..n];
        NoneIn(s, 0, n);
        PlainBytes(s[..n]);
        Utf8RoundTrip(s[..n]);
      }
    }
  }

  /** Only what is kept, and escapes, come out of quoting. */
  lemma {:induction false} QuotedChars(bs: seq<byte>, safe: string, c: char)
    requires c in QuoteBytes(bs, safe)
    ensures Kept(c, safe) || c == '%'
  {
    if c !in QuoteByte(bs[0], safe) { QuotedChars(bs[1..], safe, c); }
  }

  lemma NotQuoted(s: string, safe: string, c: char)
    requires !Kept(c, safe) && c != '%'
    ensures c !in Quote(s, safe)
  {
    if c in Quote(s, safe) { QuotedChars(Utf8(s), safe, c); }
  }

  lemma {:induction false} OwnBytes(bs: seq<byte>, safe: string, c: char)
    requires c in QuoteBytes(bs, safe) && !Unreserved(c) && c != '%'
    ensures c as int < 0x80 && c as int in bs
  {
    if c !in QuoteByte(bs[0], safe) { OwnBytes(bs[1..], safe, c); }
  }

  lemma {:induction false} AsciiByte(s: string, c: char)
    requires c as int < 0x80 && c as int in Utf8(s)
    ensures c in s
  {
    if c as int !in Utf8Char(s[0]) { AsciiByte(s[1..], c); }
  }

  /** Reserved characters in quoted text were there before. */
  lemma NothingNew(s: string, safe: string, c: char)
    requires c !in s && !Unreserved(c) && c != '%'
    ensures c !in Quote(s, safe)
  {
    if c in Quote(s, safe) {
      OwnBytes(Utf8(s), safe, c);
      AsciiByte(s, c);
    }
  }

  lemma QuoteNothing(safe: string)
    ensures Quote("", safe) == ""
  {
  }

  lemma QuoteSafe(c: char, safe: string)
    requires c < '\U{80}' && c in safe
    ensures Quote([c], safe) == [c]
  {
    assert [c][1..] == "";
    assert Utf8([c]) == [c as int];
    var bs: seq<byte> := [c as int];
    assert bs[1..] == [];
    assert QuoteBytes(bs, safe) == QuoteByte(bs[0], safe) + QuoteBytes([], safe);
  }

  lemma {:induction false} QuoteBytesAppends(a: seq<byte>, b: seq<byte>, safe: string)
    ensures QuoteBytes(a + b, safe) == QuoteBytes(a, safe) + QuoteBytes(b, safe)
  {
    if a == [] {
      assert a + b == b;
    } else {
      assert (a + b)[1..] == a[1..] + b;
      QuoteBytesAppends(a[1..], b, safe);
    }
  }

  lemma QuoteAppends(a: string, b: string, safe: string)
    ensures Quote(a + b, safe) == Quote(a, safe) + Quote(b, safe)
  {
    Utf8Appends(a, b);
    QuoteBytesAppends(Utf8(a), Utf8(b), safe);
  }
}
