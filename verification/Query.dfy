/**
  The query of a URL: its raw spelling, which goes on the wire, and the names and
  values it decodes to. Editing the values keeps the spelling of whatever was not
  edited.
 */
module Query {
  import opened Text
  import opened Percent

  /** A dictionary in its own order, each name once; or a list of pairs of which the last of a name counts. */
  type Pairs = seq<(string, string)>

  function AsMap(pairs: Pairs): map<string, string>
  {
    if pairs == [] then map[] else map[pairs[0].0 := pairs[0].1] + AsMap(pairs[1..])
  }

  ghost predicate Distinct(pairs: Pairs)
  {
    forall i, j | 0 <= i < j < |pairs| :: pairs[i].0 != pairs[j].0
  }

  lemma {:induction false} MapHas(pairs: Pairs, n: string)
    ensures n in AsMap(pairs) <==> exists i | 0 <= i < |pairs| :: pairs[i].0 == n
  {
    if pairs != [] {
      MapHas(pairs[1..], n);
      if i: nat :| i < |pairs| && pairs[i].0 == n {
        assert i > 0 ==> pairs[1..][i - 1].0 == n;
      }
      if n in AsMap(pairs[1..]) {
        var i: nat :| i < |pairs[1..]| && pairs[1..][i].0 == n;
        assert pairs[i + 1].0 == n;
      }
    }
  }

  lemma {:induction false} MapAt(pairs: Pairs, i: nat)
    requires i < |pairs| && Distinct(pairs)
    ensures pairs[i].0 in AsMap(pairs) && AsMap(pairs)[pairs[i].0] == pairs[i].1
  {
    if i > 0 {
      MapAt(pairs[1..], i - 1);
    } else {
      MapHas(pairs[1..], pairs[0].0);
    }
  }

  // -- fields -------------------------------------------------------------

  function NonEmpty(parts: seq<string>): seq<string>
  {
    if parts == [] then [] else (if parts[0] == "" then [] else [parts[0]]) + NonEmpty(parts[1..])
  }

  /** The fields between ampersands, empty ones dropped. */
  function Fields(raw: string): seq<string> { NonEmpty(Split(raw, '&')) }

  function Spaced(s: string): (r: string)
    ensures |r| == |s| && forall i | 0 <= i < |s| :: r[i] == if s[i] == '+' then ' ' else s[i]
  {
    seq(|s|, i requires 0 <= i < |s| => if s[i] == '+' then ' ' else s[i])
  }

  function UnquotePlus(s: string): string { Unquote(Spaced(s)) }

  function Name(field: string): string { UnquotePlus(Before(field, '=')) }

  function Value(field: string): string { UnquotePlus(After(field, '=')) }

  function PairsOf(fields: seq<string>): (pairs: Pairs)
    ensures |pairs| == |fields| && forall i | 0 <= i < |fields| :: pairs[i] == (Name(fields[i]), Value(fields[i]))
  {
    seq(|fields|, i requires 0 <= i < |fields| => (Name(fields[i]), Value(fields[i])))
  }

  /** What the fields decode to: of a repeated name, the last. */
  function DecodeFields(fields: seq<string>): map<string, string> { AsMap(PairsOf(fields)) }

  function Decode(raw: string): map<string, string> { DecodeFields(Fields(raw)) }

  const SAFE := ":/@,;=!$'()*~"

  function Render(name: string, value: string): string { Quote(name, SAFE) + "=" + Quote(value, SAFE) }

  ghost predicate Fieldlike(f: string) { f != "" && '&' !in f }

  lemma {:induction false} NonEmptyAre(parts: seq<string>)
    requires Without(parts, '&')
    ensures forall f | f in NonEmpty(parts) :: Fieldlike(f)
  {
    if parts != [] {
      NonEmptyAre(parts[1..]);
      assert '&' !in parts[0];
    }
  }

  lemma FieldsAre(raw: string)
    ensures forall f | f in Fields(raw) :: Fieldlike(f)
  {
    SplitJoins(raw, '&');
    NonEmptyAre(Split(raw, '&'));
  }

  lemma {:induction false} NonEmptyAll(parts: seq<string>)
    requires forall i | 0 <= i < |parts| :: parts[i] != ""
    ensures NonEmpty(parts) == parts
  {
    if parts != [] { NonEmptyAll(parts[1..]); }
  }

  /** Joining fields and splitting them gives them back. */
  lemma FieldsJoined(fields: seq<string>)
    requires forall i | 0 <= i < |fields| :: Fieldlike(fields[i])
    ensures Fields(Text.Joined(fields, "&")) == fields
  {
    if fields == [] {
      assert Split("", '&') == [""] && [""][1..] == [];
    } else {
      JoinSplits(fields, '&');
      NonEmptyAll(fields);
    }
  }

  // -- rendering ----------------------------------------------------------

  lemma NothingToSpace(s: string)
    requires '+' !in s
    ensures Spaced(s) == s
  {
    assert forall i | 0 <= i < |s| :: s[i] in s;
  }

  lemma QuotedReads(s: string)
    ensures UnquotePlus(Quote(s, SAFE)) == s
  {
    NotQuoted(s, SAFE, '+');
    NothingToSpace(Quote(s, SAFE));
    QuoteRoundTrip(s, SAFE);
  }

  function Quotes(words: seq<string>): (quotes: seq<string>)
    ensures |quotes| == |words| && forall i | 0 <= i < |words| :: quotes[i] == Quote(words[i], SAFE)
  {
    seq(|words|, i requires 0 <= i < |words| => Quote(words[i], SAFE))
  }

  lemma SpacedWord(word: string, rest: string)
    ensures Spaced(Quote(word, SAFE) + "+" + rest) == Quote(word, SAFE) + " " + Spaced(rest)
  {
    NotQuoted(word, SAFE, '+');
    assert forall i | 0 <= i < |Quote(word, SAFE)| :: Quote(word, SAFE)[i] in Quote(word, SAFE);
  }

  lemma SpaceThen(rest: string)
    requires Ascii(rest)
    ensures Ascii(" " + rest) && Unescape(" " + rest) == Utf8(" ") + Unescape(rest)
  {
    assert (" " + rest)[1..] == rest && Utf8(" ") == [0x20] by { assert " "[1..] == ""; }
  }

  lemma OneWord(word: string)
    ensures var spaced := Spaced(Quote(word, SAFE)); Ascii(spaced) && Unescape(spaced) == Utf8(word)
  {
    NotQuoted(word, SAFE, '+');
    NothingToSpace(Quote(word, SAFE));
    QuotedBytes(Utf8(word), SAFE);
  }

  lemma WordThen(word: string, rest: string, later: string)
    requires Ascii(Spaced(rest)) && Unescape(Spaced(rest)) == Utf8(later)
    ensures var spaced := Spaced(Quote(word, SAFE) + "+" + rest);
            Ascii(spaced) && Unescape(spaced) == Utf8(word + " " + later)
  {
    hide Unescape, Utf8;
    SpacedWord(word, rest);
    SpaceThen(Spaced(rest));
    QuotedThen(Utf8(word), SAFE, " " + Spaced(rest));
    assert Quote(word, SAFE) + " " + Spaced(rest) == Quote(word, SAFE) + (" " + Spaced(rest));
    Utf8Appends(word + " ", later);
    Utf8Appends(word, " ");
  }

  lemma {:induction false} WordsRead(words: seq<string>)
    requires words != []
    ensures var spaced := Spaced(Text.Joined(Quotes(words), "+"));
            Ascii(spaced) && Unescape(spaced) == Utf8(Text.Joined(words, " "))
  {
    hide Unescape, Utf8, Quote;
    if |words| == 1 {
      OneWord(words[0]);
    } else {
      WordsRead(words[1..]);
      assert Quotes(words)[1..] == Quotes(words[1..]);
      WordThen(words[0], Text.Joined(Quotes(words[1..]), "+"), Text.Joined(words[1..], " "));
    }
  }

  /** Words written with a plus sign between them read as those words with a space between them. */
  lemma PlusIsSpace(words: seq<string>)
    requires words != []
    ensures UnquotePlus(Text.Joined(Quotes(words), "+")) == Text.Joined(words, " ")
  {
    WordsRead(words);
    AsciiReads(Spaced(Text.Joined(Quotes(words), "+")), Text.Joined(words, " "));
  }

  lemma RenderIsField(name: string, value: string)
    ensures Fieldlike(Render(name, value))
  {
    NotQuoted(name, SAFE, '&');
    NotQuoted(value, SAFE, '&');
  }

  /** A field reads back whole when its name has no equals sign. */
  lemma RenderReads(name: string, value: string)
    requires '=' !in name
    ensures Name(Render(name, value)) == name && Value(Render(name, value)) == value
  {
    NothingNew(name, SAFE, '=');
    CutAt(Quote(name, SAFE), '=', Quote(value, SAFE));
    QuotedReads(name);
    QuotedReads(value);
  }

  lemma QuotedCut(a: string, b: string)
    ensures Quote(a + "=" + b, SAFE) == Quote(a, SAFE) + "=" + Quote(b, SAFE)
  {
    QuoteAppends(a + "=", b, SAFE);
    QuoteAppends(a, "=", SAFE);
    QuoteSafe('=', SAFE);
  }

  lemma NameIs(field: string, a: string, rest: string)
    requires '=' !in a && field == Quote(a, SAFE) + "=" + rest
    ensures Name(field) == a
  {
    NothingNew(a, SAFE, '=');
    CutAt(Quote(a, SAFE), '=', rest);
    QuotedReads(a);
  }

  lemma RenderedCut(a: string, b: string, value: string)
    ensures Render(a + "=" + b, value) == Quote(a, SAFE) + "=" + (Quote(b, SAFE) + "=" + Quote(value, SAFE))
  {
    hide Quote;
    QuotedCut(a, b);
  }

  /** Else its name is cut at the first one. */
  lemma RenderCut(name: string, value: string)
    requires '=' in name
    ensures Name(Render(name, value)) == Before(name, '=')
  {
    hide Name, Render, Quote;
    var a, b := Before(name, '='), After(name, '=');
    RenderedCut(a, b, value);
    assert name == a + "=" + b;
    NameIs(Render(name, value), a, Quote(b, SAFE) + "=" + Quote(value, SAFE));
  }

  // -- reconciling --------------------------------------------------------

  /** What is kept of a field: its bytes when its value was not edited. */
  function Entry(field: string, query: map<string, string>): (string, string)
    requires Name(field) in query
  {
    (Name(field), if Value(field) == query[Name(field)] then field else Render(Name(field), query[Name(field)]))
  }

  ghost predicate Named(fields: seq<string>, n: string)
  {
    exists i | 0 <= i < |fields| :: Name(fields[i]) == n
  }

  /** The last field of each name the query still has, in the order written. */
  ghost function Lasts(fields: seq<string>, query: map<string, string>): (kept: Pairs)
  {
    if fields == [] then [] else IfLast(fields, query) + Lasts(fields[1..], query)
  }

  /** The first field, if it is the last of its name. */
  ghost function IfLast(fields: seq<string>, query: map<string, string>): (kept: Pairs)
    requires fields != []
  {
    if Name(fields[0]) in query && !Named(fields[1..], Name(fields[0])) then [Entry(fields[0], query)] else []
  }

  ghost predicate Has(kept: Pairs, n: string) { exists i | 0 <= i < |kept| :: kept[i].0 == n }

  /** The names that are new, in the query's order. */
  ghost function Fresh(query: Pairs, kept: Pairs): (added: Pairs)
  {
    if query == [] then []
    else
      var first := if Has(kept, query[0].0) then [] else [(query[0].0, Render(query[0].0, query[0].1))];
      first + Fresh(query[1..], kept)
  }

  function Firsts(kept: Pairs): (names: seq<string>)
    ensures |names| == |kept| && forall i | 0 <= i < |kept| :: names[i] == kept[i].0
  {
    seq(|kept|, i requires 0 <= i < |kept| => kept[i].0)
  }

  function Seconds(kept: Pairs): (fields: seq<string>)
    ensures |fields| == |kept| && forall i | 0 <= i < |kept| :: fields[i] == kept[i].1
  {
    seq(|kept|, i requires 0 <= i < |kept| => kept[i].1)
  }

  /** The fields of the reconciled query, each with the name it stands for. */
  ghost function Settled(fields: seq<string>, query: Pairs): (kept: Pairs)
  {
    Lasts(fields, AsMap(query)) + Fresh(query, Lasts(fields, AsMap(query)))
  }

  ghost function Reconciled(raw: string, query: Pairs): string
  {
    Text.Joined(Seconds(Settled(Fields(raw), query)), "&")
  }

  function Popped(kept: Pairs, n: string): Pairs
  {
    if kept == [] then []
    else if kept[0].0 == n then Popped(kept[1..], n)
    else [kept[0]] + Popped(kept[1..], n)
  }

  lemma {:induction false} PoppedAppends(a: Pairs, b: Pairs, n: string)
    ensures Popped(a + b, n) == Popped(a, n) + Popped(b, n)
  {
    if a == [] {
      assert a + b == b;
    } else {
      assert (a + b)[1..] == a[1..] + b;
      PoppedAppends(a[1..], b, n);
    }
  }

  lemma NamedExtends(fields: seq<string>, f: string, n: string)
    ensures Named(fields + [f], n) <==> Named(fields, n) || Name(f) == n
  {
    assert (fields + [f])[|fields|] == f;
    if Named(fields, n) {
      var i: nat :| i < |fields| && Name(fields[i]) == n;
      assert (fields + [f])[i] == fields[i];
    }
  }

  lemma IfLastExtends(fields: seq<string>, f: string, query: map<string, string>)
    requires fields != []
    ensures IfLast(fields + [f], query) ==
            if Name(f) in query then Popped(IfLast(fields, query), Name(f)) else IfLast(fields, query)
  {
    hide Name, Value, Render;
    assert (fields + [f])[1..] == fields[1..] + [f] && (fields + [f])[0] == fields[0];
    NamedExtends(fields[1..], f, Name(fields[0]));
  }

  /** One more field takes the place of an earlier one of its name, at the end. */
  lemma {:induction false} LastsExtend(fields: seq<string>, f: string, query: map<string, string>)
    ensures Lasts(fields + [f], query) ==
            if Name(f) in query then Popped(Lasts(fields, query), Name(f)) + [Entry(f, query)] else Lasts(fields, query)
  {
    hide Name, Value, Render;
    if fields == [] {
      assert fields + [f] == [f] && [f][1..] == [];
    } else {
      assert (fields + [f])[1..] == fields[1..] + [f];
      IfLastExtends(fields, f, query);
      LastsExtend(fields[1..], f, query);
      PoppedAppends(IfLast(fields, query), Lasts(fields[1..], query), Name(f));
    }
  }

  lemma {:induction false} FreshExtends(query: Pairs, kept: Pairs, n: nat)
    requires n < |query|
    ensures Fresh(query[..n + 1], kept) ==
            Fresh(query[..n], kept) +
            (if Has(kept, query[n].0) then [] else [(query[n].0, Render(query[n].0, query[n].1))])
  {
    hide Name, Value, Render;
    if n == 0 {
      assert query[..1] == [query[0]];
    } else {
      assert query[..n + 1][1..] == query[1..][..n] && query[..n][1..] == query[1..][..n - 1];
      FreshExtends(query[1..], kept, n - 1);
    }
  }

  lemma {:induction false} FreshAreNamed(query: Pairs, kept: Pairs, k: nat) returns (i: nat)
    requires k < |Fresh(query, kept)|
    ensures i < |query| && !Has(kept, query[i].0)
    ensures Fresh(query, kept)[k] == (query[i].0, Render(query[i].0, query[i].1))
  {
    hide Name, Value, Render;
    if !Has(kept, query[0].0) && k == 0 {
      i := 0;
    } else {
      var j := FreshAreNamed(query[1..], kept, if Has(kept, query[0].0) then k else k - 1);
      i := j + 1;
    }
  }

  /** A name is not among the settled ones before its turn has come. */
  lemma NotYet(query: Pairs, kept: Pairs, n: nat)
    requires Distinct(query) && n < |query|
    ensures Has(kept + Fresh(query[..n], kept), query[n].0) <==> Has(kept, query[n].0)
  {
    hide Name, Value, Render;
    var added := Fresh(query[..n], kept);
    var all := kept + added;
    if Has(kept, query[n].0) {
      var i: nat :| i < |kept| && kept[i].0 == query[n].0;
      assert all[i].0 == query[n].0;
    } else if Has(all, query[n].0) {
      var i: nat :| i < |all| && all[i].0 == query[n].0;
      assert i >= |kept|;
      var j := FreshAreNamed(query[..n], kept, i - |kept|);
    }
  }

  lemma TakeField(fields: seq<string>, i: nat, values: map<string, string>, kept: Pairs)
    requires i < |fields| && kept == Lasts(fields[..i], values)
    ensures Lasts(fields[..i + 1], values) ==
            if Name(fields[i]) in values then Popped(kept, Name(fields[i])) + [Entry(fields[i], values)] else kept
  {
    hide Name, Value, Render;
    assert fields[..i + 1] == fields[..i] + [fields[i]];
    LastsExtend(fields[..i], fields[i], values);
  }

  lemma TakeName(query: Pairs, n: nat, lasts: Pairs, kept: Pairs)
    requires Distinct(query) && n < |query| && kept == lasts + Fresh(query[..n], lasts)
    ensures lasts + Fresh(query[..n + 1], lasts) ==
            if query[n].0 in Firsts(kept) then kept else kept + [(query[n].0, Render(query[n].0, query[n].1))]
  {
    hide Name, Value, Render;
    NotYet(query, lasts, n);
    FreshExtends(query, lasts, n);
    assert query[n].0 in Firsts(kept) <==> Has(kept, query[n].0) by {
      if Has(kept, query[n].0) {
        var i: nat :| i < |kept| && kept[i].0 == query[n].0;
        assert Firsts(kept)[i] == query[n].0;
      }
    }
  }

  /**
    Brings a raw query into line with edited values. Two loops over an ordered
    dictionary from names to fields: the first goes through what was written, each
    field ousting an earlier one of its name, the second through what is wanted.
   */
  method Reconcile(raw: string, query: Pairs) returns (r: string)
    requires Distinct(query)
    ensures r == Reconciled(raw, query)
  {
    hide Name, Value, Render;
    var fields, values := Fields(raw), AsMap(query);
    var kept: Pairs := [];
    var i := 0;
    while i < |fields|
      invariant i <= |fields| && kept == Lasts(fields[..i], values)
    {
      TakeField(fields, i, values, kept);
      if Name(fields[i]) in values {
        kept := Popped(kept, Name(fields[i])) + [Entry(fields[i], values)];
      }
      i := i + 1;
    }
    assert fields[..i] == fields;
    ghost var lasts := kept;
    i := 0;
    while i < |query|
      invariant i <= |query| && kept == lasts + Fresh(query[..i], lasts)
    {
      TakeName(query, i, lasts, kept);
      if query[i].0 !in Firsts(kept) {
        kept := kept + [(query[i].0, Render(query[i].0, query[i].1))];
      }
      i := i + 1;
    }
    assert query[..i] == query;
    r := Text.Joined(Seconds(kept), "&");
  }

  // -- what reconciling promises ------------------------------------------

  lemma PairsTail(fields: seq<string>)
    requires fields != []
    ensures PairsOf(fields)[1..] == PairsOf(fields[1..])
    ensures DecodeFields(fields) == map[Name(fields[0]) := Value(fields[0])] + DecodeFields(fields[1..])
  {
    assert PairsOf(fields)[1..] == PairsOf(fields[1..]);
  }

  lemma DecodedNames(fields: seq<string>, n: string)
    ensures n in DecodeFields(fields) <==> Named(fields, n)
  {
    MapHas(PairsOf(fields), n);
    if Named(fields, n) {
      var i: nat :| i < |fields| && Name(fields[i]) == n;
      assert PairsOf(fields)[i].0 == n;
    }
    if i: nat :| i < |PairsOf(fields)| && PairsOf(fields)[i].0 == n {
      assert Name(fields[i]) == n;
    }
  }

  /** An entry keeps a field's bytes if they decode to the query's value, and is rendered otherwise. */
  ghost predicate Sound(e: (string, string), query: map<string, string>, decoded: map<string, string>)
  {
    && e.0 in query
    && (if e.0 in decoded && decoded[e.0] == query[e.0]
        then Name(e.1) == e.0 && Value(e.1) == query[e.0] && Fieldlike(e.1)
        else e.1 == Render(e.0, query[e.0]))
  }

  lemma {:induction false} LastsSound(fields: seq<string>, query: map<string, string>, k: nat)
    requires forall i | 0 <= i < |fields| :: Fieldlike(fields[i])
    requires k < |Lasts(fields, query)|
    ensures Lasts(fields, query)[k].0 in DecodeFields(fields)
    ensures Sound(Lasts(fields, query)[k], query, DecodeFields(fields))
  {
    hide Name, Value, Render;
    var rest := Lasts(fields[1..], query);
    var head := |Lasts(fields, query)| - |rest|;
    PairsTail(fields);
    DecodedNames(fields[1..], Name(fields[0]));
    if k >= head {
      LastsSound(fields[1..], query, k - head);
    }
  }

  /** Each name once, and every one that the fields and the query share. */
  lemma {:induction false} LastsDistinct(fields: seq<string>, query: map<string, string>)
    ensures Distinct(Lasts(fields, query))
    ensures forall n :: Has(Lasts(fields, query), n) <==> n in query && Named(fields, n)
  {
    hide Name, Value, Render;
    if fields != [] {
      LastsDistinct(fields[1..], query);
      var head, rest := IfLast(fields, query), Lasts(fields[1..], query);
      forall n ensures Has(head + rest, n) <==> n in query && Named(fields, n) {
        HasBehind(head, rest, n);
        NamedBehind(fields, n);
        assert head != [] ==> head[0].0 == Name(fields[0]);
      }
    }
  }

  lemma HasBehind(a: Pairs, b: Pairs, n: string)
    ensures Has(a + b, n) <==> Has(a, n) || Has(b, n)
  {
    if Has(a, n) { var i: nat :| i < |a| && a[i].0 == n; assert (a + b)[i].0 == n; }
    if Has(b, n) { var i: nat :| i < |b| && b[i].0 == n; assert (a + b)[|a| + i].0 == n; }
  }

  lemma NamedBehind(fields: seq<string>, n: string)
    requires fields != []
    ensures Named(fields, n) <==> Name(fields[0]) == n || Named(fields[1..], n)
  {
    if Named(fields[1..], n) {
      var i: nat :| i < |fields[1..]| && Name(fields[1..][i]) == n;
      assert fields[i + 1] == fields[1..][i];
    }
    if i: nat :| i < |fields| && Name(fields[i]) == n {
      assert i > 0 ==> fields[1..][i - 1] == fields[i];
    }
  }

  lemma {:induction false} FreshDistinct(query: Pairs, kept: Pairs)
    requires Distinct(query)
    ensures Distinct(Fresh(query, kept))
  {
    hide Name, Value, Render;
    if query != [] {
      FreshDistinct(query[1..], kept);
      forall k: nat | k < |Fresh(query[1..], kept)| ensures Fresh(query[1..], kept)[k].0 != query[0].0 {
        var i := FreshAreNamed(query[1..], kept, k);
      }
    }
  }

  lemma {:induction false} FreshHas(query: Pairs, kept: Pairs, n: string)
    ensures Has(Fresh(query, kept), n) <==> Has(query, n) && !Has(kept, n)
  {
    hide Name, Value, Render;
    if query != [] {
      FreshHas(query[1..], kept, n);
      var head := if Has(kept, query[0].0) then [] else [(query[0].0, Render(query[0].0, query[0].1))];
      HasBehind(head, Fresh(query[1..], kept), n);
      HasBehind([query[0]], query[1..], n);
      assert query == [query[0]] + query[1..];
      assert [query[0]][0].0 == query[0].0 && (head != [] ==> head[0].0 == query[0].0);
    }
  }

  /** The settled names are the query's, each once. */
  lemma SettledDistinct(fields: seq<string>, query: Pairs)
    requires Distinct(query)
    ensures Distinct(Settled(fields, query))
    ensures forall n :: Has(Settled(fields, query), n) <==> n in AsMap(query)
  {
    hide Name, Value, Render;
    var lasts := Lasts(fields, AsMap(query));
    var added := Fresh(query, lasts);
    LastsDistinct(fields, AsMap(query));
    FreshDistinct(query, lasts);
    forall i: nat, j: nat | i < |lasts| && j < |added| ensures lasts[i].0 != added[j].0 {
      var k := FreshAreNamed(query, lasts, j);
    }
    forall n ensures Has(lasts + added, n) <==> n in AsMap(query) {
      HasBehind(lasts, added, n);
      FreshHas(query, lasts, n);
      MapHas(query, n);
    }
  }

  lemma SettledSound(raw: string, query: Pairs, k: nat)
    requires Distinct(query) && k < |Settled(Fields(raw), query)|
    ensures Sound(Settled(Fields(raw), query)[k], AsMap(query), Decode(raw))
  {
    var fields, values := Fields(raw), AsMap(query);
    var lasts := Lasts(fields, values);
    FieldsAre(raw);
    if k < |lasts| {
      LastsSound(fields, values, k);
    } else {
      var i := FreshAreNamed(query, lasts, k - |lasts|);
      MapAt(query, i);
      LastsDistinct(fields, values);
      DecodedNames(fields, query[i].0);
    }
  }

  lemma SoundIsField(e: (string, string), query: map<string, string>, decoded: map<string, string>)
    requires Sound(e, query, decoded)
    ensures Fieldlike(e.1)
  {
    RenderIsField(e.0, query[e.0]);
  }

  /** The fields of the reconciled query are the settled ones. */
  lemma ReconciledFields(raw: string, query: Pairs)
    requires Distinct(query)
    ensures Fields(Reconciled(raw, query)) == Seconds(Settled(Fields(raw), query))
  {
    var kept := Settled(Fields(raw), query);
    forall k: nat | k < |kept| ensures Fieldlike(Seconds(kept)[k]) {
      SettledSound(raw, query, k);
      SoundIsField(kept[k], AsMap(query), Decode(raw));
    }
    FieldsJoined(Seconds(kept));
  }

  /** Every name with an equals sign was already there, with the value it is to have. */
  ghost predicate NamesSurvive(decoded: map<string, string>, query: map<string, string>)
  {
    forall n | n in query && '=' in n :: n in decoded && decoded[n] == query[n]
  }

  lemma SoundReads(e: (string, string), query: map<string, string>, decoded: map<string, string>)
    requires Sound(e, query, decoded) && ('=' in e.0 ==> e.0 in decoded && decoded[e.0] == query[e.0])
    ensures Name(e.1) == e.0 && Value(e.1) == query[e.0]
  {
    if !(e.0 in decoded && decoded[e.0] == query[e.0]) { RenderReads(e.0, query[e.0]); }
  }

  lemma LostName(e: (string, string), n: string, query: map<string, string>, decoded: map<string, string>)
    requires Sound(e, query, decoded) && n in query && '=' in n && !(n in decoded && decoded[n] == query[n])
    ensures Name(e.1) != n
  {
    if !(e.0 in decoded && decoded[e.0] == query[e.0]) {
      if '=' in e.0 { RenderCut(e.0, query[e.0]); } else { RenderReads(e.0, query[e.0]); }
    }
  }

  lemma AllRead(kept: Pairs, query: map<string, string>)
    requires Distinct(kept) && forall n :: Has(kept, n) <==> n in query
    requires forall k | 0 <= k < |kept| ::
               kept[k].0 in query && Name(kept[k].1) == kept[k].0 && Value(kept[k].1) == query[kept[k].0]
    ensures DecodeFields(Seconds(kept)) == query
  {
    hide Name, Value, Render;
    var pairs := PairsOf(Seconds(kept));
    assert Distinct(pairs);
    forall n ensures n in AsMap(pairs) <==> n in query {
      MapHas(pairs, n);
      if Has(kept, n) { var k: nat :| k < |kept| && kept[k].0 == n; assert pairs[k].0 == n; }
      if k: nat :| k < |pairs| && pairs[k].0 == n { assert kept[k].0 == n; }
    }
    forall n | n in query ensures AsMap(pairs)[n] == query[n] {
      assert Has(kept, n);
      var k: nat :| k < |kept| && kept[k].0 == n;
      MapAt(pairs, k);
    }
  }

  /**
    The reconciled query decodes to the edited one exactly when no name with an
    equals sign had to be rendered: the sign is not escaped, and would end the name.
   */
  lemma ReconciledDecodes(raw: string, query: Pairs)
    requires Distinct(query)
    ensures Decode(Reconciled(raw, query)) == AsMap(query) <==> NamesSurvive(Decode(raw), AsMap(query))
  {
    var kept, values, decoded := Settled(Fields(raw), query), AsMap(query), Decode(raw);
    SettledDistinct(Fields(raw), query);
    ReconciledFields(raw, query);
    if NamesSurvive(decoded, values) {
      forall k: nat | k < |kept|
        ensures kept[k].0 in values && Name(kept[k].1) == kept[k].0 && Value(kept[k].1) == values[kept[k].0]
      {
        SettledSound(raw, query, k);
        SoundReads(kept[k], values, decoded);
      }
      AllRead(kept, values);
    } else {
      var n :| n in values && '=' in n && !(n in decoded && decoded[n] == values[n]);
      DecodedNames(Seconds(kept), n);
      forall k: nat | k < |kept| ensures Name(Seconds(kept)[k]) != n {
        SettledSound(raw, query, k);
        LostName(kept[k], n, values, decoded);
      }
    }
  }

  /** The name is the last of its kind, and its value is the query's. */
  ghost predicate Unedited(fields: seq<string>, i: nat, query: map<string, string>)
  {
    && i < |fields| && !Named(fields[i + 1..], Name(fields[i]))
    && Name(fields[i]) in query && query[Name(fields[i])] == Value(fields[i])
  }

  lemma LastsUnfold(fields: seq<string>, query: map<string, string>)
    requires fields != []
    ensures Lasts(fields, query) == IfLast(fields, query) + Lasts(fields[1..], query)
  {
    hide Name, Value, Render, IfLast;
  }

  lemma {:induction false} LastsFrom(fields: seq<string>, query: map<string, string>, i: nat) returns (before: Pairs)
    requires i <= |fields|
    ensures Lasts(fields, query) == before + Lasts(fields[i..], query)
  {
    hide Lasts, IfLast;
    if i == 0 {
      assert fields[0..] == fields;
      before := [];
    } else {
      var first := IfLast(fields, query);
      var rest := LastsFrom(fields[1..], query, i - 1);
      assert fields[1..][i - 1..] == fields[i..];
      LastsUnfold(fields, query);
      before := first + rest;
      assert before + Lasts(fields[i..], query) == first + (rest + Lasts(fields[i..], query));
    }
  }

  lemma LastsAt(fields: seq<string>, query: map<string, string>, i: nat) returns (k: nat)
    requires Unedited(fields, i, query)
    ensures k < |Lasts(fields, query)| && Lasts(fields, query)[k].1 == fields[i]
    ensures Lasts(fields, query)[k + 1..] == Lasts(fields[i + 1..], query)
  {
    hide Name, Value, Render;
    var before := LastsFrom(fields, query, i);
    assert fields[i..][1..] == fields[i + 1..];
    k := |before|;
  }

  lemma UneditedTail(fields: seq<string>, query: map<string, string>, i: nat, j: nat)
    requires i < j && Unedited(fields, j, query)
    ensures Unedited(fields[i + 1..], j - i - 1, query) && fields[i + 1..][j - i - 1] == fields[j]
  {
    hide Name, Value, Render;
    assert fields[i + 1..][j - i..] == fields[j + 1..];
  }

  lemma LastsInOrder(fields: seq<string>, query: map<string, string>, i: nat, j: nat) returns (a: nat, b: nat)
    requires i < j && Unedited(fields, i, query) && Unedited(fields, j, query)
    ensures a < b < |Lasts(fields, query)|
    ensures Lasts(fields, query)[a].1 == fields[i] && Lasts(fields, query)[b].1 == fields[j]
  {
    hide Name, Value, Render;
    UneditedTail(fields, query, i, j);
    var rest, all := fields[i + 1..], Lasts(fields, query);
    a := LastsAt(fields, query, i);
    var c := LastsAt(rest, query, j - i - 1);
    b := a + 1 + c;
    assert all[b] == all[a + 1..][c];
  }

  /** A field goes where its settled entry goes. */
  lemma FieldAt(raw: string, query: Pairs, k: nat)
    requires Distinct(query) && k < |Lasts(Fields(raw), AsMap(query))|
    ensures k < |Fields(Reconciled(raw, query))|
    ensures Fields(Reconciled(raw, query))[k] == Lasts(Fields(raw), AsMap(query))[k].1
  {
    ReconciledFields(raw, query);
  }

  /** Unedited fields keep their bytes and their order. */
  lemma UneditedStay(raw: string, query: Pairs, i: nat, j: nat) returns (a: nat, b: nat)
    requires Distinct(query) && i < j
    requires Unedited(Fields(raw), i, AsMap(query)) && Unedited(Fields(raw), j, AsMap(query))
    ensures a < b < |Fields(Reconciled(raw, query))|
    ensures Fields(Reconciled(raw, query))[a] == Fields(raw)[i] && Fields(Reconciled(raw, query))[b] == Fields(raw)[j]
  {
    a, b := LastsInOrder(Fields(raw), AsMap(query), i, j);
    FieldAt(raw, query, a);
    FieldAt(raw, query, b);
  }

  ghost predicate KeepsUnedited(before: seq<string>, query: map<string, string>, after: seq<string>)
  {
    forall i: nat | Unedited(before, i, query) :: before[i] in after
  }

  lemma UneditedAllStay(raw: string, query: Pairs)
    requires Distinct(query)
    ensures KeepsUnedited(Fields(raw), AsMap(query), Fields(Reconciled(raw, query)))
  {
    forall i: nat | Unedited(Fields(raw), i, AsMap(query)) ensures Fields(raw)[i] in Fields(Reconciled(raw, query)) {
      var k := LastsAt(Fields(raw), AsMap(query), i);
      FieldAt(raw, query, k);
    }
  }

  /** What a URL sends once its query has been set: the old bytes if they already say that. */
  method InStep(raw: string, query: Pairs) returns (r: string)
    requires Distinct(query)
    ensures Decode(raw) == AsMap(query) ==> r == raw
    ensures Decode(r) == AsMap(query) <==> NamesSurvive(Decode(raw), AsMap(query))
    ensures KeepsUnedited(Fields(raw), AsMap(query), Fields(r))
  {
    ReconciledDecodes(raw, query);
    UneditedAllStay(raw, query);
    r := raw;
    if Decode(raw) != AsMap(query) { r := Reconcile(raw, query); }
  }

  lemma NothingDecodes()
    ensures Decode("") == map[]
  {
    assert Split("", '&') == [""] && [""][1..] == [];
  }

  /** Setting a field whose name has the sign, where none was written before, does not read back: for instance `a=b`. */
  lemma EqualsInName(name: string, value: string)
    requires '=' in name
    ensures Decode(Reconciled("", [(name, value)])) != AsMap([(name, value)])
  {
    hide Decode, Reconciled;
    ReconciledDecodes("", [(name, value)]);
    NothingDecodes();
    MapAt([(name, value)], 0);
  }
}
