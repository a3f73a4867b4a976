/** Slash-aware glob patterns: what they match, and which directories have to be looked at. */
module Glob {
  import opened Wrappers
  import opened Walk
  import opened Text

  // -- patterns -----------------------------------------------------------

  /** The pieces a pattern compiles to, in regular-expression terms. */
  datatype Token =
    | AnyDirs         // "**/"  (?:[^/]+/)*
    | Anything        // "**"   .*
    | Star            // "*"    [^/]*
    | One             // "?"    [^/]
    | Lit(c: char)

  predicate Twice(p: string) { |p| > 1 && p[0] == '*' && p[1] == '*' }

  /** The first token of a pattern and how much of it that takes. Brackets are not part of this model. */
  function First(p: string): (r: (Token, nat))
    requires p != ""
    ensures 0 < r.1 <= |p|
  {
    if Twice(p) && |p| > 2 && p[2] == '/' then (AnyDirs, 3)
    else if Twice(p) then (Anything, 2)
    else if p[0] == '*' then (Star, 1)
    else if p[0] == '?' then (One, 1)
    else (Lit(p[0]), 1)
  }

  function Tokens(p: string): (ts: seq<Token>)
  {
    if p == "" then [] else [First(p).0] + Tokens(p[First(p).1..])
  }

  lemma TokensStep(pattern: string, i: nat, out: seq<Token>)
    requires i < |pattern|
    ensures var (token, width) := First(pattern[i..]);
            && i + width <= |pattern|
            && out + Tokens(pattern[i..]) == out + [token] + Tokens(pattern[i + width..])
  {
    hide First;
    var (token, width) := First(pattern[i..]);
    assert pattern[i..][width..] == pattern[i + width..];
  }

  /** The compilation, left to right. */
  method Compile(pattern: string) returns (out: seq<Token>)
    ensures out == Tokens(pattern)
  {
    out := [];
    var i := 0;
    assert pattern[0..] == pattern;
    while i < |pattern|
      invariant i <= |pattern|
      invariant Tokens(pattern) == out + Tokens(pattern[i..])
    {
      hide First, Tokens;
      var (token, width) := First(pattern[i..]);
      TokensStep(pattern, i, out);
      out := out + [token];
      i := i + width;
    }
    assert pattern[i..] == "";
  }

  /** Whether the compiled pattern matches the whole of a string; `.` is no newline. */
  predicate Match(ts: seq<Token>, s: string)
    decreases |ts|, |s|
  {
    if ts == [] then s == ""
    else
      match ts[0]
      case Lit(c) => s != "" && s[0] == c && Match(ts[1..], s[1..])
      case One => s != "" && s[0] != '/' && Match(ts[1..], s[1..])
      case Star => Match(ts[1..], s) || (s != "" && s[0] != '/' && Match(ts, s[1..]))
      case Anything => Match(ts[1..], s) || (s != "" && s[0] != '\n' && Match(ts, s[1..]))
      case AnyDirs =>
        Match(ts[1..], s) ||
        exists k | 0 < k < |s| :: '/' !in s[..k] && s[k] == '/' && Match(ts, s[k + 1..])
  }

  // -- what the wildcards mean --------------------------------------------

  /** Zero or more whole components, each with its slash. */
  ghost predicate Components(s: string)
  {
    s == "" || (s[0] != '/' && s[|s| - 1] == '/' && forall i | 0 < i < |s| :: !(s[i - 1] == '/' && s[i] == '/'))
  }

  /**
    Whether a pattern matches the whole of a string, said of its text: a star any stretch without
    a slash, two stars any stretch within a line, two stars and a slash whole components, a question
    mark one character other than a slash, and anything else itself.
   */
  ghost predicate Means(p: string, s: string)
    decreases |p|
  {
    if p == "" then s == ""
    else if "**/" <= p then exists k | 0 <= k <= |s| :: Components(s[..k]) && Means(p[3..], s[k..])
    else if "**" <= p then exists k | 0 <= k <= |s| :: '\n' !in s[..k] && Means(p[2..], s[k..])
    else if "*" <= p then exists k | 0 <= k <= |s| :: '/' !in s[..k] && Means(p[1..], s[k..])
    else s != "" && (if "?" <= p then s[0] != '/' else s[0] == p[0]) && Means(p[1..], s[1..])
  }

  /** A run of characters other than `c`, and then the rest. */
  ghost predicate Runs(c: char, ts: seq<Token>, s: string)
  {
    exists k | 0 <= k <= |s| :: c !in s[..k] && Match(ts, s[k..])
  }

  lemma RunsOn(c: char, ts: seq<Token>, s: string)
    requires s != "" && s[0] != c && Runs(c, ts, s[1..])
    ensures Runs(c, ts, s)
  {
    hide Match;
    var rest := s[1..];
    var k :| 0 <= k <= |rest| && c !in rest[..k] && Match(ts, rest[k..]);
    assert s[..k + 1] == [s[0]] + rest[..k] && s[k + 1..] == rest[k..];
  }

  lemma RunsBack(c: char, ts: seq<Token>, s: string)
    requires Runs(c, ts, s) && !Match(ts, s)
    ensures s != "" && s[0] != c && Runs(c, ts, s[1..])
  {
    hide Match;
    var k :| 0 <= k <= |s| && c !in s[..k] && Match(ts, s[k..]);
    assert s[0..] == s;
    var rest := s[1..];
    assert s[..k] == [s[0]] + rest[..k - 1] && rest[k - 1..] == s[k..];
  }

  lemma RunsStep(c: char, ts: seq<Token>, s: string)
    ensures Runs(c, ts, s) <==> Match(ts, s) || (s != "" && s[0] != c && Runs(c, ts, s[1..]))
  {
    hide Match;
    assert s[0..] == s;
    if Match(ts, s) {
      assert c !in s[..0] && Match(ts, s[0..]);
    } else if Runs(c, ts, s) {
      RunsBack(c, ts, s);
    } else if s != "" && s[0] != c && Runs(c, ts, s[1..]) {
      RunsOn(c, ts, s);
    }
  }

  lemma {:induction false} StarRuns(ts: seq<Token>, s: string)
    ensures Match([Star] + ts, s) <==> Runs('/', ts, s)
    ensures Match([Anything] + ts, s) <==> Runs('\n', ts, s)
    decreases |s|
  {
    RunsStep('/', ts, s);
    RunsStep('\n', ts, s);
    assert ([Star] + ts)[1..] == ts && ([Anything] + ts)[1..] == ts;
    if s != "" { StarRuns(ts, s[1..]); }
  }

  /** Whole components, and then the rest. */
  ghost predicate Descends(ts: seq<Token>, s: string)
  {
    exists k | 0 <= k <= |s| :: Components(s[..k]) && Match(ts, s[k..])
  }

  /** The first component of some, with its slash. */
  lemma FirstComponent(s: string) returns (k: nat)
    requires Components(s) && s != ""
    ensures 0 < k < |s| && '/' !in s[..k] && s[k] == '/' && Components(s[k + 1..])
  {
    k := 0;
    while s[k] != '/'
      invariant k < |s| && '/' !in s[..k]
      decreases |s| - k
    {
      assert s[..k + 1] == s[..k] + [s[k]];
      k := k + 1;
    }
    var rest := s[k + 1..];
    assert forall i | 0 <= i < |rest| :: rest[i] == s[k + 1 + i];
  }

  lemma OneMoreComponent(s: string, k: nat, more: string)
    requires 0 < k && |s| == k + 1 && '/' !in s[..k] && s[k] == '/' && Components(more)
    ensures Components(s + more)
  {
    assert forall i | 0 <= i < k :: s[i] in s[..k];
  }

  /** One component taken by hand. */
  ghost predicate StepsDown(ts: seq<Token>, s: string)
  {
    exists k | 0 < k < |s| :: '/' !in s[..k] && s[k] == '/' && Descends(ts, s[k + 1..])
  }

  lemma CutTwice(s: string, m: nat, n: nat)
    requires m + n <= |s|
    ensures s[..m + n] == s[..m] + s[m..][..n] && s[m + n..] == s[m..][n..]
    ensures s[..m + n][..m] == s[..m] && s[..m + n][m..] == s[m..][..n]
  {
  }

  lemma ComponentTaken(ts: seq<Token>, s: string)
    requires StepsDown(ts, s)
    ensures Descends(ts, s)
  {
    hide Match, Components;
    var k :| 0 < k < |s| && '/' !in s[..k] && s[k] == '/' && Descends(ts, s[k + 1..]);
    var n :| 0 <= n <= |s| - k - 1 && Components(s[k + 1..][..n]) && Match(ts, s[k + 1..][n..]);
    CutTwice(s, k + 1, n);
    CutTwice(s, k, 1);
    OneMoreComponent(s[..k + 1], k, s[k + 1..][..n]);
  }

  lemma ComponentGiven(ts: seq<Token>, s: string)
    requires Descends(ts, s) && !Match(ts, s)
    ensures StepsDown(ts, s)
  {
    hide Match, Components;
    var n :| 0 <= n <= |s| && Components(s[..n]) && Match(ts, s[n..]);
    assert s[0..] == s;
    var k := FirstComponent(s[..n]);
    CutTwice(s, k + 1, n - k - 1);
    CutTwice(s, k, n - k);
    assert Descends(ts, s[k + 1..]);
  }

  lemma DescendsStep(ts: seq<Token>, s: string)
    ensures Descends(ts, s) <==> Match(ts, s) || StepsDown(ts, s)
  {
    hide Match;
    assert s[0..] == s;
    if Match(ts, s) { assert Components(s[..0]) && Match(ts, s[0..]); }
    if StepsDown(ts, s) { ComponentTaken(ts, s); }
    if Descends(ts, s) && !Match(ts, s) { ComponentGiven(ts, s); }
  }

  lemma {:induction false} DirsDescend(ts: seq<Token>, s: string)
    ensures Match([AnyDirs] + ts, s) <==> Descends(ts, s)
    decreases |s|
  {
    var all := [AnyDirs] + ts;
    assert all[1..] == ts;
    DescendsStep(ts, s);
    forall rest: string | |rest| < |s| ensures Match(all, rest) <==> Descends(ts, rest) {
      DirsDescend(ts, rest);
    }
  }

  lemma NothingTakesNothing(s: string)
    ensures Match([], s) <==> s == ""
  {
  }

  lemma TokenTakes(token: Token, ts: seq<Token>, s: string)
    ensures Match([token] + ts, s) <==>
            match token
            case Lit(c) => s != "" && s[0] == c && Match(ts, s[1..])
            case One => s != "" && s[0] != '/' && Match(ts, s[1..])
            case Star => Runs('/', ts, s)
            case Anything => Runs('\n', ts, s)
            case AnyDirs => Descends(ts, s)
  {
    hide Runs, Descends;
    StarRuns(ts, s);
    DirsDescend(ts, s);
    assert ([token] + ts)[1..] == ts;
  }

  lemma RunsMeant(c: char, ts: seq<Token>, rest: string, s: string)
    requires forall k | 0 <= k <= |s| :: Match(ts, s[k..]) <==> Means(rest, s[k..])
    ensures Runs(c, ts, s) <==> exists k | 0 <= k <= |s| :: c !in s[..k] && Means(rest, s[k..])
    ensures Descends(ts, s) <==> exists k | 0 <= k <= |s| :: Components(s[..k]) && Means(rest, s[k..])
  {
    hide Match, Means, Components;
  }

  /** The compiled pattern matches what the pattern means. */
  lemma {:induction false} MatchIsMeant(p: string, s: string)
    ensures Match(Tokens(p), s) <==> Means(p, s)
    decreases |p|
  {
    hide Match, Components, Runs, Descends;
    if p == "" {
      NothingTakesNothing(s);
    } else {
      var (token, width) := First(p);
      var rest := p[width..];
      assert Tokens(p) == [token] + Tokens(rest);
      forall k | 0 <= k <= |s| ensures Match(Tokens(rest), s[k..]) <==> Means(rest, s[k..]) {
        MatchIsMeant(rest, s[k..]);
      }
      TokenTakes(token, Tokens(rest), s);
      RunsMeant('/', Tokens(rest), rest, s);
      RunsMeant('\n', Tokens(rest), rest, s);
    }
  }

  predicate Magic(c: char) { c == '*' || c == '?' || c == '[' }

  predicate Literal(p: string) { forall i | 0 <= i < |p| :: !Magic(p[i]) }

  /** What a pattern begins with literally, whatever it matches begins with. */
  lemma {:induction false} LiteralBegins(lit: string, rest: string, s: string)
    requires Literal(lit) && Match(Tokens(lit + rest), s)
    ensures lit <= s && Match(Tokens(rest), s[|lit|..])
  {
    if lit == "" {
      assert lit + rest == rest && s[0..] == s;
    } else {
      var p := lit + rest;
      assert First(p) == (Lit(lit[0]), 1);
      assert p[1..] == lit[1..] + rest;
      LiteralBegins(lit[1..], rest, s[1..]);
      assert s[1..][|lit| - 1..] == s[|lit|..];
    }
  }

  /** A pattern with no slash and no "**" stays inside one component. */
  lemma {:induction false} StaysInside(p: string, s: string)
    requires '/' !in p && !Doubled(p) && Match(Tokens(p), s)
    ensures '/' !in s
    decreases |p|, |s|
  {
    if p != "" {
      var (token, width) := First(p);
      assert Tokens(p)[1..] == Tokens(p[1..]);
      assert p[0] in p && forall c | c in p[1..] :: c in p;
      if token.Star? && !Match(Tokens(p[1..]), s) {
        StaysInside(p, s[1..]);
        assert s == [s[0]] + s[1..];
      } else if token.Star? {
        StaysInside(p[1..], s);
      } else {
        StaysInside(p[1..], s[1..]);
        assert s == [s[0]] + s[1..];
      }
    }
  }

  /** Two stars in a row, somewhere. */
  predicate Doubled(p: string) { p != "" && (Twice(p) || Doubled(p[1..])) }

  // -- the literal prefix -------------------------------------------------

  ghost predicate Plain(parts: seq<string>) { forall i | 0 <= i < |parts| :: Literal(parts[i]) }

  lemma {:induction false} JoinedLiteral(parts: seq<string>)
    requires Plain(parts)
    ensures Literal(Text.Joined(parts, "/"))
  {
    if |parts| > 1 { JoinedLiteral(parts[1..]); }
  }

  lemma AbsoluteSplits(pattern: string)
    requires pattern != "" && pattern[0] == '/'
    ensures |Split(pattern, '/')| > 1 && Split(pattern, '/')[0] == ""
  {
    assert pattern[0] in pattern;
  }

  lemma KeptBegins(pattern: string, parts: seq<string>, keep: seq<string>, lit: string)
    requires parts == Split(pattern, '/') && 0 < |keep| < |parts| && keep == parts[..|keep|]
    requires Plain(keep) && lit == Text.Joined(keep, "/")
    ensures Literal(lit) && lit + "/" <= pattern
  {
    SplitJoins(pattern, '/');
    JoinParts(parts, "/", |keep|);
    JoinedLiteral(keep);
  }

  lemma KeepOne(parts: seq<string>, keep: seq<string>)
    requires |keep| < |parts| && keep == parts[..|keep|] && Plain(keep) && Literal(parts[|keep|])
    ensures keep + [parts[|keep|]] == parts[..|keep| + 1] && Plain(keep + [parts[|keep|]])
  {
  }

  /** As many leading components as have no wildcard, leaving at least one. */
  ghost predicate DeepestLiteral(parts: seq<string>, lit: string)
  {
    exists keep: seq<string> | 0 < |keep| < |parts| :: Stops(parts, keep) && lit == Text.Joined(keep, "/")
  }

  ghost predicate Stops(parts: seq<string>, keep: seq<string>)
    requires |keep| < |parts|
  {
    keep == parts[..|keep|] && Plain(keep) && (|keep| == |parts| - 1 || !Literal(parts[|keep|]))
  }

  /**
    `start` is the path of the deepest literal directory, `lit` put together again, which
    with a slash begins the pattern.
   */
  ghost predicate Prefixes(pattern: string, lit: string, start: string)
  {
    && DeepestLiteral(Split(pattern, '/'), lit) && Literal(lit) && lit + "/" <= pattern
    && start == if lit == "" then "/" else lit
  }

  /**
    The leading components with no wildcard, the last component never among them,
    put together again.
   */
  method LiteralPrefix(pattern: string) returns (start: string)
    requires pattern != "" && pattern[0] == '/'
    ensures exists lit :: Prefixes(pattern, lit, start)
  {
    var parts := Split(pattern, '/');
    AbsoluteSplits(pattern);
    var keep := [""];
    while |keep| < |parts| - 1 && Literal(parts[|keep|])
      invariant 0 < |keep| < |parts| && keep == parts[..|keep|] && Plain(keep)
    {
      KeepOne(parts, keep);
      keep := keep + [parts[|keep|]];
    }
    start := Text.Joined(keep, "/");
    KeptBegins(pattern, parts, keep, start);
    assert Stops(parts, keep);
    ghost var lit := start;
    if start == "" { start := "/"; }
    assert Prefixes(pattern, lit, start);
  }

  // -- the namespace ------------------------------------------------------

  /** A tree without links: every directory has a stat id, which may name nothing. */
  datatype Tree = File | Dir(ident: string, entries: seq<(string, Tree)>)

  predicate Name(n: string) { n != "" && '/' !in n }

  /** A path, from its components: "" for the root, "/a/b" for the rest. */
  function Spell(names: seq<string>): string
  {
    if names == [] then "" else "/" + names[0] + Spell(names[1..])
  }

  function DirPath(names: seq<string>): string { if names == [] then "/" else Spell(names) }

  lemma {:induction false} SpellAppend(a: seq<string>, b: seq<string>)
    ensures Spell(a + b) == Spell(a) + Spell(b)
  {
    if a == [] {
      assert a + b == b;
    } else {
      SpellAppend(a[1..], b);
      assert (a + b)[1..] == a[1..] + b;
    }
  }

  lemma SpellOne(name: string)
    ensures Spell([name]) == "/" + name
  {
    assert Spell([name]) == "/" + name + Spell([name][1..]);
  }

  lemma {:induction false} SpellEnds(names: seq<string>)
    requires names != [] && forall i | 0 <= i < |names| :: Name(names[i])
    ensures Spell(names) != "" && Spell(names)[|Spell(names)| - 1] != '/'
  {
    if |names| == 1 {
      assert names[0][|names[0]| - 1] in names[0];
      assert Spell(names[1..]) == "";
    } else {
      SpellEnds(names[1..]);
    }
  }

  /** Joining a name to a directory's path spells the longer path. */
  lemma JoinSpells(names: seq<string>, name: string)
    requires forall i | 0 <= i < |names| :: Name(names[i])
    ensures Join(DirPath(names), name) == Spell(names + [name])
  {
    SpellAppend(names, [name]);
    SpellOne(name);
    if names != [] { SpellEnds(names); }
  }

  lemma {:induction false} SameHead(a: string, x: string, b: string, y: string)
    requires '/' !in a && '/' !in b && a + x <= b + y
    requires x != "" && x[0] == '/' && (y == "" || y[0] == '/')
    ensures a == b && x <= y
  {
    assert (a != "" ==> a[0] in a) && (b != "" ==> b[0] in b);
    assert (a + x)[0] == (b + y)[0];
    if a != "" && b != "" {
      assert a == [a[0]] + a[1..] && b == [b[0]] + b[1..];
      assert (a + x)[1..] == a[1..] + x && (b + y)[1..] == b[1..] + y;
      SameHead(a[1..], x, b[1..], y);
    } else {
      assert a == "" && b == "";
      assert a + x == x && b + y == y;
    }
  }

  /** A path that spells out further than a directory's path lies below that directory. */
  lemma {:induction false} SpellBelow(pre: seq<string>, names: seq<string>)
    requires (forall i | 0 <= i < |pre| :: '/' !in pre[i]) && (forall i | 0 <= i < |names| :: Name(names[i]))
    requires Spell(pre) + "/" <= Spell(names)
    ensures |pre| < |names| && pre == names[..|pre|]
    decreases |pre|
  {
    var s := Spell(names);
    assert names != [];
    if pre != [] {
      var a, b := pre[0], names[0];
      var x, y := Spell(pre[1..]) + "/", Spell(names[1..]);
      assert Spell(pre) + "/" == "/" + a + x && s == "/" + b + y;
      assert x[0] == '/' by { if pre[1..] != [] { assert Spell(pre[1..])[0] == '/'; } }
      assert a + x <= b + y by { assert (Spell(pre) + "/")[1..] == a + x && s[1..] == b + y; }
      SameHead(a, x, b, y);
      SpellBelow(pre[1..], names[1..]);
    }
  }

  /** The entries named by `names` exist, each inside the one before. */
  ghost predicate Has(t: Tree, names: seq<string>)
    decreases names
  {
    names == [] || (t.Dir? && exists e | e in t.entries :: e.0 == names[0] && Has(e.1, names[1..]))
  }

  ghost predicate Named(t: Tree)
  {
    t.Dir? ==>
      && (forall e | e in t.entries :: Name(e.0) && Named(e.1))
      && (forall i, k | 0 <= i < k < |t.entries| :: t.entries[i].0 != t.entries[k].0)
  }

  lemma {:induction false} HasNames(t: Tree, names: seq<string>)
    requires Named(t) && Has(t, names)
    ensures forall i | 0 <= i < |names| :: Name(names[i])
    decreases names
  {
    if names != [] {
      var e :| e in t.entries && e.0 == names[0] && Has(e.1, names[1..]);
      HasNames(e.1, names[1..]);
    }
  }

  /** The directory at the end of `names`, if there is one. */
  function At(t: Tree, names: seq<string>): (r: Option<Tree>)
    decreases names
  {
    if names == [] then Some(t)
    else if t.File? then None
    else In(t.entries, names)
  }

  function In(entries: seq<(string, Tree)>, names: seq<string>): (r: Option<Tree>)
    requires names != []
    decreases names, entries
  {
    if entries == [] then None
    else if entries[0].0 == names[0] then At(entries[0].1, names[1..])
    else In(entries[1..], names)
  }

  lemma {:induction false} InFinds(entries: seq<(string, Tree)>, names: seq<string>, e: (string, Tree))
    requires names != [] && e in entries && e.0 == names[0]
    requires forall i, k | 0 <= i < k < |entries| :: entries[i].0 != entries[k].0
    ensures In(entries, names) == At(e.1, names[1..])
  {
    if entries[0] != e {
      assert e in entries[1..];
      InFinds(entries[1..], names, e);
    }
  }

  /** What exists below a directory is what exists, looked up from the root, beyond it. */
  lemma {:induction false} HasBeyond(t: Tree, pre: seq<string>, more: seq<string>)
    requires Named(t)
    ensures Has(t, pre + more) <==> At(t, pre).Some? && Has(At(t, pre).value, more)
    decreases pre
  {
    if pre == [] {
      assert pre + more == more;
    } else {
      var all := pre + more;
      assert all[0] == pre[0] && all[1..] == pre[1..] + more;
      if t.Dir? {
        forall e | e in t.entries && e.0 == pre[0]
          ensures At(t, pre) == At(e.1, pre[1..])
          ensures Has(e.1, all[1..]) <==> At(e.1, pre[1..]).Some? && Has(At(e.1, pre[1..]).value, more)
        {
          InFinds(t.entries, pre, e);
          HasBeyond(e.1, pre[1..], more);
        }
        if At(t, pre).Some? { InExists(t.entries, pre); }
      }
    }
  }

  lemma {:induction false} InExists(entries: seq<(string, Tree)>, names: seq<string>)
    requires names != [] && In(entries, names).Some?
    ensures exists e | e in entries :: e.0 == names[0]
  {
    if entries[0].0 != names[0] { InExists(entries[1..], names); }
  }

  // -- looking ------------------------------------------------------------

  /** The paths of everything below a directory, a directory's own entries before those of its children. */
  function Paths(names: seq<string>, t: Tree): (ps: seq<string>)
    decreases t, 1, 0
  {
    if t.File? then [] else EntryPaths(names, t.entries) + Deeper(names, t, t.entries)
  }

  function EntryPaths(names: seq<string>, entries: seq<(string, Tree)>): seq<string>
  {
    seq(|entries|, i requires 0 <= i < |entries| => Join(DirPath(names), entries[i].0))
  }

  function Deeper(names: seq<string>, t: Tree, entries: seq<(string, Tree)>): seq<string>
    requires forall e | e in entries :: e.1 < t
    decreases t, 0, |entries|
  {
    if entries == [] then []
    else Paths(names + [entries[0].0], entries[0].1) + Deeper(names, t, entries[1..])
  }

  /** The same, as the walk finds them: a directory whose id has been seen is not entered. */
  function Found(names: seq<string>, t: Tree, seen: set<string>): (r: (seq<string>, set<string>))
    decreases t, 1, 0
  {
    if t.File? then ([], seen)
    else
      var (below, after) := FoundDeeper(names, t, t.entries, seen);
      (EntryPaths(names, t.entries) + below, after)
  }

  function FoundDeeper(names: seq<string>, t: Tree, entries: seq<(string, Tree)>, seen: set<string>)
    : (r: (seq<string>, set<string>))
    requires forall e | e in entries :: e.1 < t
    decreases t, 0, |entries|
  {
    if entries == [] then ([], seen)
    else
      var child := entries[0].1;
      var enters := child.Dir? && Admits(child.ident, seen);
      var noted := if enters then Noting(child.ident, seen) else seen;
      var (first, mid) := if enters then Found(names + [entries[0].0], child, noted) else ([], noted);
      var (rest, after) := FoundDeeper(names, t, entries[1..], mid);
      (first + rest, after)
  }

  /** The ids of the directories below a directory that name something. */
  ghost function Idents(t: Tree): (ids: seq<string>)
    decreases t, 1, 0
  {
    if t.File? then [] else EntryIdents(t, t.entries)
  }

  ghost function EntryIdents(t: Tree, entries: seq<(string, Tree)>): (ids: seq<string>)
    requires forall e | e in entries :: e.1 < t
    decreases t, 0, |entries|
  {
    if entries == [] then []
    else Own(entries[0].1) + Idents(entries[0].1) + EntryIdents(t, entries[1..])
  }

  function Own(t: Tree): seq<string> { if t.Dir? && Identifies(t.ident) then [t.ident] else [] }

  lemma DistinctParts(a: seq<string>, b: seq<string>)
    requires Distinct(a + b)
    ensures Distinct(a) && Distinct(b) && Elements(a) !! Elements(b) && Elements(a + b) == Elements(a) + Elements(b)
  {
    assert forall i | 0 <= i < |a| :: (a + b)[i] == a[i];
    assert forall i | 0 <= i < |b| :: (a + b)[|a| + i] == b[i];
    assert forall x :: x in a + b <==> x in a || x in b;
  }

  /** On a tree, where ids that name something name different directories, the guard against cycles skips nothing. */
  lemma {:induction false} WalkSkipsNothing(names: seq<string>, t: Tree, seen: set<string>)
    requires Distinct(Idents(t)) && Elements(Idents(t)) !! seen
    ensures Found(names, t, seen) == (Paths(names, t), seen + Elements(Idents(t)))
    decreases t, 1, 0
  {
    assert seen + Elements([]) == seen;
    if t.Dir? { DeeperSkipsNothing(names, t, t.entries, seen); }
  }

  lemma {:induction false} DeeperSkipsNothing(names: seq<string>, t: Tree, entries: seq<(string, Tree)>,
                                              seen: set<string>)
    requires forall e | e in entries :: e.1 < t
    requires Distinct(EntryIdents(t, entries)) && Elements(EntryIdents(t, entries)) !! seen
    ensures FoundDeeper(names, t, entries, seen) ==
            (Deeper(names, t, entries), seen + Elements(EntryIdents(t, entries)))
    decreases t, 0, |entries|
  {
    assert seen + Elements([]) == seen;
    if entries != [] {
      var child := entries[0].1;
      var own, ids, rest := Own(child), Idents(child), EntryIdents(t, entries[1..]);
      DistinctParts(own + ids, rest);
      DistinctParts(own, ids);
      var noted := seen + Elements(own);
      assert child.Dir? && Identifies(child.ident) ==> child.ident in own && Elements(own) == {child.ident};
      assert child.File? ==> noted + Elements(ids) == seen;
      assert child.Dir? && !Identifies(child.ident) ==> noted == seen;
      WalkSkipsNothing(names + [entries[0].0], child, noted);
      DeeperSkipsNothing(names, t, entries[1..], noted + Elements(ids));
      assert noted + Elements(ids) + Elements(rest) == seen + Elements(EntryIdents(t, entries));
    }
  }

  /** `p` spells something that exists strictly below `t`, whose own path is `names`. */
  ghost predicate Below(names: seq<string>, t: Tree, p: string, more: seq<string>)
  {
    more != [] && Has(t, more) && p == Spell(names + more)
  }

  lemma EntryBelow(names: seq<string>, t: Tree, p: string) returns (more: seq<string>)
    requires t.Dir? && Named(t) && (forall i | 0 <= i < |names| :: Name(names[i])) && p in EntryPaths(names, t.entries)
    ensures Below(names, t, p, more)
  {
    var i :| 0 <= i < |t.entries| && EntryPaths(names, t.entries)[i] == p;
    JoinSpells(names, t.entries[i].0);
    more := [t.entries[i].0];
    assert t.entries[i] in t.entries && Has(t.entries[i].1, more[1..]);
  }

  /** A step down: an entry itself, or something below it. */
  lemma BelowSteps(names: seq<string>, t: Tree, p: string, more: seq<string>)
    requires t.Dir? && (forall i | 0 <= i < |names| :: Name(names[i])) && Below(names, t, p, more)
    ensures p in EntryPaths(names, t.entries) || exists e | e in t.entries :: Below(names + [e.0], e.1, p, more[1..])
  {
    var e :| e in t.entries && e.0 == more[0] && Has(e.1, more[1..]);
    assert names + more == names + [e.0] + more[1..];
    if |more| == 1 {
      var i :| 0 <= i < |t.entries| && t.entries[i] == e;
      JoinSpells(names, e.0);
      assert more == [e.0];
      assert EntryPaths(names, t.entries)[i] == p;
    }
  }

  lemma BelowClimbs(names: seq<string>, t: Tree, e: (string, Tree), p: string, more: seq<string>)
    requires t.Dir? && e in t.entries && Below(names + [e.0], e.1, p, more)
    ensures Below(names, t, p, [e.0] + more)
  {
    var longer := [e.0] + more;
    assert longer[1..] == more && names + longer == names + [e.0] + more;
  }

  /** The paths below a directory are those of the entries that exist below it. */
  lemma {:induction false} PathsAreThere(names: seq<string>, t: Tree, p: string)
    requires Named(t) && forall i | 0 <= i < |names| :: Name(names[i])
    ensures p in Paths(names, t) <==> exists more :: Below(names, t, p, more)
    decreases t, 1, 0
  {
    if t.Dir? {
      DeeperAreThere(names, t, t.entries, p);
      if p in EntryPaths(names, t.entries) {
        var more := EntryBelow(names, t, p);
      } else if p in Deeper(names, t, t.entries) {
        var e, more :| e in t.entries && Below(names + [e.0], e.1, p, more);
        BelowClimbs(names, t, e, p, more);
      }
      if exists more :: Below(names, t, p, more) {
        var more :| Below(names, t, p, more);
        BelowSteps(names, t, p, more);
      }
    }
  }

  lemma {:induction false} DeeperAreThere(names: seq<string>, t: Tree, entries: seq<(string, Tree)>, p: string)
    requires forall e | e in entries :: e.1 < t && Name(e.0) && Named(e.1)
    requires forall i | 0 <= i < |names| :: Name(names[i])
    ensures p in Deeper(names, t, entries) <==> exists e, more | e in entries :: Below(names + [e.0], e.1, p, more)
    decreases t, 0, |entries|
  {
    if entries != [] {
      var e := entries[0];
      PathsAreThere(names + [e.0], e.1, p);
      DeeperAreThere(names, t, entries[1..], p);
      assert forall f :: f in entries <==> f == e || f in entries[1..];
    }
  }

  // -- each path once -----------------------------------------------------

  ghost predicate Names(names: seq<string>) { forall i | 0 <= i < |names| :: Name(names[i]) }

  lemma SpellInjective(a: seq<string>, b: seq<string>)
    requires Names(a) && Names(b) && Spell(a) == Spell(b)
    ensures a == b
  {
    if a != [] && b != [] {
      SpellJoins(a);
      SpellJoins(b);
      assert Text.Joined(a, "/") == Spell(a)[1..] && Text.Joined(b, "/") == Spell(b)[1..];
      JoinSplits(a, '/');
      JoinSplits(b, '/');
    }
  }

  /** Two paths below different entries of a directory differ, and so do an entry's and one below an entry. */
  lemma SpellDiffers(names: seq<string>, a: seq<string>, b: seq<string>)
    requires Names(names) && Names(a) && Names(b) && a != b
    ensures Spell(names + a) != Spell(names + b)
  {
    assert (names + a)[|names|..] == a && (names + b)[|names|..] == b;
    if Spell(names + a) == Spell(names + b) { SpellInjective(names + a, names + b); }
  }

  lemma DistinctJoin(a: seq<string>, b: seq<string>)
    requires Distinct(a) && Distinct(b) && forall p | p in a :: p !in b
    ensures Distinct(a + b)
  {
    forall i, k | 0 <= i < k < |a + b| ensures (a + b)[i] != (a + b)[k] {
      if i < |a| <= k { assert (a + b)[i] in a && (a + b)[k] in b; }
    }
  }

  lemma {:induction false} FilterDistinct(ts: seq<Token>, ps: seq<string>)
    requires Distinct(ps)
    ensures Distinct(Filter(ts, ps))
  {
    if ps != [] {
      assert ps == [ps[0]] + ps[1..];
      DistinctParts([ps[0]], ps[1..]);
      FilterDistinct(ts, ps[1..]);
      assert ps[0] in Elements([ps[0]]);
      if Match(ts, ps[0]) { DistinctJoin([ps[0]], Filter(ts, ps[1..])); }
    }
  }

  lemma EntriesDistinct(names: seq<string>, t: Tree)
    requires t.Dir? && Named(t) && Names(names)
    ensures Distinct(EntryPaths(names, t.entries))
  {
    var ps := EntryPaths(names, t.entries);
    forall i, k | 0 <= i < k < |ps| ensures ps[i] != ps[k] {
      var a, b := t.entries[i].0, t.entries[k].0;
      assert t.entries[i] in t.entries && t.entries[k] in t.entries;
      JoinSpells(names, a);
      JoinSpells(names, b);
      assert [a][0] != [b][0];
      SpellDiffers(names, [a], [b]);
    }
  }

  /** What lies below one entry is spelt with its name. */
  lemma BelowEntry(names: seq<string>, e: (string, Tree), p: string) returns (more: seq<string>)
    requires Named(e.1) && Name(e.0) && Names(names) && p in Paths(names + [e.0], e.1)
    ensures more != [] && Names([e.0] + more) && p == Spell(names + ([e.0] + more))
  {
    hide Spell, Has, Named, Paths;
    PathsAreThere(names + [e.0], e.1, p);
    more :| Below(names + [e.0], e.1, p, more);
    HasNames(e.1, more);
    assert names + [e.0] + more == names + ([e.0] + more);
  }

  lemma BelowSomeEntry(names: seq<string>, t: Tree, entries: seq<(string, Tree)>, p: string)
    returns (e: (string, Tree), more: seq<string>)
    requires (forall e | e in entries :: e.1 < t && Name(e.0) && Named(e.1)) && Names(names)
    requires p in Deeper(names, t, entries)
    ensures e in entries && more != [] && Names([e.0] + more) && p == Spell(names + ([e.0] + more))
    decreases |entries|
  {
    if p in Paths(names + [entries[0].0], entries[0].1) {
      e := entries[0];
      more := BelowEntry(names, e, p);
    } else {
      e, more := BelowSomeEntry(names, t, entries[1..], p);
    }
  }

  /** No path comes twice. */
  lemma {:induction false} PathsDistinct(names: seq<string>, t: Tree)
    requires Named(t) && Names(names)
    ensures Distinct(Paths(names, t))
    decreases t, 1, 0
  {
    if t.Dir? {
      EntriesDistinct(names, t);
      DeeperDistinct(names, t, t.entries);
      forall p | p in EntryPaths(names, t.entries) ensures p !in Deeper(names, t, t.entries) {
        if p in Deeper(names, t, t.entries) { EntryNotDeeper(names, t, p); }
      }
      DistinctJoin(EntryPaths(names, t.entries), Deeper(names, t, t.entries));
    }
  }

  lemma EntryNotDeeper(names: seq<string>, t: Tree, p: string)
    requires t.Dir? && Named(t) && Names(names) && p in EntryPaths(names, t.entries)
    ensures p !in Deeper(names, t, t.entries)
  {
    var i :| 0 <= i < |t.entries| && EntryPaths(names, t.entries)[i] == p;
    var a := t.entries[i].0;
    assert t.entries[i] in t.entries;
    JoinSpells(names, a);
    if p in Deeper(names, t, t.entries) {
      var e, more := BelowSomeEntry(names, t, t.entries, p);
      SpellDiffers(names, [a], [e.0] + more);
    }
  }

  lemma {:induction false} DeeperDistinct(names: seq<string>, t: Tree, entries: seq<(string, Tree)>)
    requires (forall e | e in entries :: e.1 < t && Name(e.0) && Named(e.1)) && Names(names)
    requires forall i, k | 0 <= i < k < |entries| :: entries[i].0 != entries[k].0
    ensures Distinct(Deeper(names, t, entries))
    decreases t, 0, |entries|
  {
    if entries != [] {
      var e, rest := entries[0], entries[1..];
      PathsDistinct(names + [e.0], e.1);
      DeeperDistinct(names, t, rest);
      forall p | p in Paths(names + [e.0], e.1) ensures p !in Deeper(names, t, rest) {
        OtherEntry(names, t, e, rest, p);
      }
      DistinctJoin(Paths(names + [e.0], e.1), Deeper(names, t, rest));
    }
  }

  lemma OtherEntry(names: seq<string>, t: Tree, e: (string, Tree), rest: seq<(string, Tree)>, p: string)
    requires Named(e.1) && Name(e.0) && Names(names) && p in Paths(names + [e.0], e.1)
    requires forall f | f in rest :: f.1 < t && Name(f.0) && Named(f.1) && f.0 != e.0
    ensures p !in Deeper(names, t, rest)
  {
    var more := BelowEntry(names, e, p);
    if p in Deeper(names, t, rest) {
      var f, other := BelowSomeEntry(names, t, rest, p);
      assert ([e.0] + more)[0] != ([f.0] + other)[0];
      SpellDiffers(names, [e.0] + more, [f.0] + other);
    }
  }

  // -- directory names ----------------------------------------------------

  /** Everything up to and including the last slash. */
  function Head(p: string): (h: string)
    requires '/' in p
    ensures h <= p && h != "" && h[|h| - 1] == '/' && '/' !in p[|h|..]
  {
    if p[|p| - 1] == '/' then p
    else
      assert p == p[..|p| - 1] + [p[|p| - 1]];
      var h := Head(p[..|p| - 1]);
      assert p[|h|..] == p[..|p| - 1][|h|..] + [p[|p| - 1]];
      h
  }

  function Rstrip(s: string): (t: string)
    ensures t == "" || t[|t| - 1] != '/'
  {
    if s != "" && s[|s| - 1] == '/' then Rstrip(s[..|s| - 1]) else s
  }

  /** A path's directory: the head without its trailing slashes, unless it is nothing but slashes. */
  function Dirname(p: string): string
    requires '/' in p
  {
    if Rstrip(Head(p)) == "" then Head(p) else Rstrip(Head(p))
  }

  lemma {:induction false} RstripLiteral(s: string)
    requires Literal(Rstrip(s))
    ensures Literal(s)
  {
    if s != "" && s[|s| - 1] == '/' { RstripLiteral(s[..|s| - 1]); }
  }

  lemma HeadLiteral(pattern: string)
    requires '/' in pattern && Literal(Dirname(pattern))
    ensures Literal(Head(pattern))
  {
    RstripLiteral(Head(pattern));
  }

  lemma {:induction false} SameTail(a: string, x: string, b: string, y: string)
    requires '/' !in x && '/' !in y && a + x == b + y
    requires a != "" && a[|a| - 1] == '/' && b != "" && b[|b| - 1] == '/'
    ensures a == b && x == y
    decreases |x|
  {
    assert (x != "" ==> x[|x| - 1] in x) && (y != "" ==> y[|y| - 1] in y);
    assert (a + x)[|a + x| - 1] == (b + y)[|b + y| - 1];
    if x != "" && y != "" {
      assert x == x[..|x| - 1] + [x[|x| - 1]] && y == y[..|y| - 1] + [y[|y| - 1]];
      assert (a + x)[..|a + x| - 1] == a + x[..|x| - 1] && (b + y)[..|b + y| - 1] == b + y[..|y| - 1];
      SameTail(a, x[..|x| - 1], b, y[..|y| - 1]);
    } else {
      assert x == "" && y == "";
      assert a + x == a && b + y == b;
    }
  }

  /** The components a directory's path names. */
  function NamesOf(start: string): (names: seq<string>)
    requires start != "" && start[0] == '/'
  {
    if start == "/" then [] else Split(start[1..], '/')
  }

  lemma {:induction false} SpellJoins(parts: seq<string>)
    requires parts != []
    ensures Spell(parts) == "/" + Text.Joined(parts, "/")
  {
    if |parts| > 1 { SpellJoins(parts[1..]); }
  }

  lemma SplitPlain(s: string)
    ensures Without(Split(s, '/'), '/') && Spell(Split(s, '/')) == "/" + s
  {
    SplitJoins(s, '/');
    SpellJoins(Split(s, '/'));
  }

  lemma NamesOfSpelt(names: seq<string>)
    requires forall i | 0 <= i < |names| :: Name(names[i])
    ensures DirPath(names) != "" && DirPath(names)[0] == '/' && NamesOf(DirPath(names)) == names
  {
    if names != [] {
      SpellJoins(names);
      JoinSplits(names, '/');
    }
  }

  // -- the two ways to look -----------------------------------------------

  ghost predicate Absolute(pattern: string) { pattern != "" && pattern[0] == '/' && '[' !in pattern }

  /** What lies beyond a directory's names is below that directory. */
  lemma LiesBelow(root: Tree, names: seq<string>, more: seq<string>)
    requires Named(root) && Has(root, more) && |names| < |more| && names == more[..|names|]
    ensures At(root, names).Some? && Spell(more) in Paths(names, At(root, names).value)
  {
    hide Named, Has, Spell, At, Paths, Name;
    HasNames(root, more);
    var rest := more[|names|..];
    assert more == names + rest;
    HasBeyond(root, names, rest);
    NamedAt(root, names);
    PathsAreThere(names, At(root, names).value, Spell(more));
    assert Below(names, At(root, names).value, Spell(more), rest);
  }

  /** A path that begins with a directory's has that directory's names first. */
  lemma PrefixNames(start: string, more: seq<string>)
    requires start != "" && start[0] == '/' && more != [] && forall i | 0 <= i < |more| :: Name(more[i])
    requires start != "/" ==> start + "/" <= Spell(more)
    ensures |NamesOf(start)| < |more| && NamesOf(start) == more[..|NamesOf(start)|]
  {
    if start != "/" {
      SplitPlain(start[1..]);
      assert Spell(NamesOf(start)) == start;
      SpellBelow(NamesOf(start), more);
    }
  }

  /** A matching path lies below the literal prefix, which is therefore a directory. */
  lemma MatchesLieBelow(root: Tree, pattern: string, lit: string, start: string, more: seq<string>)
    requires Named(root) && root.Dir? && Literal(lit) && lit + "/" <= pattern && pattern[0] == '/'
    requires start == if lit == "" then "/" else lit
    requires more != [] && Has(root, more) && Match(Tokens(pattern), Spell(more))
    ensures start != "" && start[0] == '/' && At(root, NamesOf(start)).Some?
    ensures Spell(more) in Paths(NamesOf(start), At(root, NamesOf(start)).value)
  {
    hide Match, Tokens, Named, Has, Spell, NamesOf, At, Paths;
    var rest := pattern[|lit| + 1..];
    assert pattern == (lit + "/") + rest;
    LiteralBegins(lit + "/", rest, Spell(more));
    assert lit != "" ==> lit[0] == (lit + "/")[0] == pattern[0];
    HasNames(root, more);
    PrefixNames(start, more);
    LiesBelow(root, NamesOf(start), more);
  }

  lemma {:induction false} NamedAt(t: Tree, names: seq<string>)
    requires Named(t) && At(t, names).Some?
    ensures Named(At(t, names).value)
    decreases names
  {
    if names != [] { NamedIn(t.entries, names); }
  }

  lemma {:induction false} NamedIn(entries: seq<(string, Tree)>, names: seq<string>)
    requires names != [] && (forall e | e in entries :: Named(e.1)) && In(entries, names).Some?
    ensures Named(In(entries, names).value)
    decreases names, entries
  {
    if entries[0].0 == names[0] { NamedAt(entries[0].1, names[1..]); } else { NamedIn(entries[1..], names); }
  }

  /** What is found below a directory of the tree is in the tree. */
  lemma FoundIsThere(root: Tree, names: seq<string>, p: string)
    requires Named(root) && (forall i | 0 <= i < |names| :: Name(names[i])) && At(root, names).Some?
    requires p in Paths(names, At(root, names).value)
    ensures p in Paths([], root)
  {
    NamedAt(root, names);
    PathsAreThere(names, At(root, names).value, p);
    var more :| Below(names, At(root, names).value, p, more);
    HasBeyond(root, names, more);
    assert [] + (names + more) == names + more;
    assert Below([], root, p, names + more);
    PathsAreThere([], root, p);
  }

  /** With wildcards in the last component only, and no "**" there, what matches is in one directory. */
  lemma MatchesLieIn(root: Tree, pattern: string, start: string, more: seq<string>)
    requires Named(root) && Absolute(pattern) && '/' in pattern && Literal(start) && start == Dirname(pattern)
    requires !Doubled(pattern[|Head(pattern)|..])
    requires more != [] && Has(root, more) && Match(Tokens(pattern), Spell(more))
    ensures start == DirPath(more[..|more| - 1])
  {
    hide Match, Tokens, Spell, Has, Dirname, Doubled, Named;
    var p, head := Spell(more), Head(pattern);
    TailStays(pattern, p);
    HasNames(root, more);
    LastSpelt(more);
    assert p == head + p[|head|..];
    SameTail(head, p[|head|..], Spell(more[..|more| - 1]) + "/", more[|more| - 1]);
    HeadOfParent(pattern, more[..|more| - 1]);
  }

  lemma TailStays(pattern: string, p: string)
    requires '/' in pattern && Literal(Dirname(pattern)) && !Doubled(pattern[|Head(pattern)|..])
    requires Match(Tokens(pattern), p)
    ensures Head(pattern) <= p && '/' !in p[|Head(pattern)|..]
  {
    var head, base := Head(pattern), pattern[|Head(pattern)|..];
    HeadLiteral(pattern);
    assert pattern == head + base;
    LiteralBegins(head, base, p);
    StaysInside(base, p[|head|..]);
  }

  lemma LastSpelt(more: seq<string>)
    requires more != []
    ensures Spell(more) == (Spell(more[..|more| - 1]) + "/") + more[|more| - 1]
  {
    hide Spell;
    var parent, last := more[..|more| - 1], more[|more| - 1];
    assert more == parent + [last];
    SpellAppend(parent, [last]);
    SpellOne(last);
  }

  lemma HeadOfParent(pattern: string, parent: seq<string>)
    requires '/' in pattern && Head(pattern) == Spell(parent) + "/"
    requires forall i | 0 <= i < |parent| :: Name(parent[i])
    ensures Dirname(pattern) == DirPath(parent)
  {
    if parent != [] { SpellEnds(parent); }
    assert Head(pattern)[..|Head(pattern)| - 1] == Spell(parent);
    assert Rstrip(Spell(parent)) == Spell(parent);
  }

  lemma InListing(root: Tree, more: seq<string>)
    requires Named(root) && more != [] && Has(root, more)
    ensures var parent := more[..|more| - 1];
            && At(root, parent).Some? && At(root, parent).value.Dir?
            && Spell(more) in EntryPaths(parent, At(root, parent).value.entries)
  {
    var parent, last := more[..|more| - 1], more[|more| - 1];
    assert more == parent + [last];
    HasBeyond(root, parent, [last]);
    HasNames(root, more);
    var t := At(root, parent).value;
    var e :| e in t.entries && e.0 == last;
    var i :| 0 <= i < |t.entries| && t.entries[i] == e;
    JoinSpells(parent, last);
    assert EntryPaths(parent, t.entries)[i] == Spell(more);
  }

  function Filter(ts: seq<Token>, ps: seq<string>): (kept: seq<string>)
    ensures forall p :: p in kept <==> p in ps && Match(ts, p)
  {
    if ps == [] then []
    else (if Match(ts, ps[0]) then [ps[0]] else []) + Filter(ts, ps[1..])
  }

  /** If no two directories of a tree share an id, no two below any of them do. */
  lemma {:induction false} DistinctBelow(t: Tree, names: seq<string>)
    requires Distinct(Idents(t)) && At(t, names).Some?
    ensures Distinct(Idents(At(t, names).value))
    decreases names
  {
    if names != [] { DistinctIn(t, t.entries, names); }
  }

  lemma {:induction false} DistinctIn(t: Tree, entries: seq<(string, Tree)>, names: seq<string>)
    requires (forall e | e in entries :: e.1 < t) && Distinct(EntryIdents(t, entries))
    requires names != [] && In(entries, names).Some?
    ensures Distinct(Idents(In(entries, names).value))
    decreases names, entries
  {
    var e := entries[0];
    DistinctParts(Own(e.1) + Idents(e.1), EntryIdents(t, entries[1..]));
    DistinctParts(Own(e.1), Idents(e.1));
    if e.0 == names[0] { DistinctBelow(e.1, names[1..]); } else { DistinctIn(t, entries[1..], names); }
  }

  /** One listing is enough: all the magic is in the last component. */
  predicate Flat(pattern: string, start: string)
    requires '/' in pattern
  {
    !Doubled(pattern[|Head(pattern)|..]) && start == Dirname(pattern)
  }

  /** The same, of the pattern alone: no wildcard up to the last slash, which follows no other. */
  ghost predicate OneListing(pattern: string)
    requires '/' in pattern
  {
    var head := Head(pattern);
    !Doubled(pattern[|head|..]) && Literal(head) && (|head| == 1 || head[|head| - 2] != '/')
  }

  lemma PartsAround(pattern: string, parts: seq<string>, k: nat)
    requires parts == Split(pattern, '/') && 0 < k < |parts| - 1
    ensures pattern == Text.Joined(parts[..k], "/") + "/" + (parts[k] + "/" + Text.Joined(parts[k + 1..], "/"))
  {
    SplitJoins(pattern, '/');
    JoinParts(parts, "/", k);
    assert parts[k..][0] == parts[k] && parts[k..][1..] == parts[k + 1..];
  }

  lemma LastSlash(pattern: string, at: nat)
    requires at < |pattern| && pattern[at] == '/'
    ensures '/' in pattern && at < |Head(pattern)|
  {
    var tail := pattern[|Head(pattern)|..];
    assert forall i | |Head(pattern)| <= i < |pattern| :: pattern[i] == tail[i - |Head(pattern)|];
  }

  lemma WildBeforeSlash(pattern: string, before: string, part: string, after: string)
    requires pattern == before + "/" + (part + "/" + after) && !Literal(part)
    ensures '/' in pattern && !Literal(Head(pattern))
  {
    hide Head;
    var at := |before| + 1;
    assert pattern[at + |part|] == '/';
    LastSlash(pattern, at + |part|);
    var i :| 0 <= i < |part| && Magic(part[i]);
    assert part[i] == pattern[at + i] == Head(pattern)[at + i];
  }

  /** With no wildcard up to the last slash, the literal prefix is everything before it. */
  lemma WholeHead(pattern: string, keep: seq<string>, lit: string)
    requires '/' in pattern && Literal(Head(pattern)) && 0 < |keep| < |Split(pattern, '/')|
    requires Stops(Split(pattern, '/'), keep) && lit == Text.Joined(keep, "/")
    ensures Head(pattern) == lit + "/"
  {
    hide Head, Split, Text.Joined, Literal, Plain;
    var parts, k := Split(pattern, '/'), |keep|;
    SplitJoins(pattern, '/');
    if k < |parts| - 1 {
      PartsAround(pattern, parts, k);
      WildBeforeSlash(pattern, lit, parts[k], Text.Joined(parts[k + 1..], "/"));
    } else {
      var head, last := Head(pattern), parts[k];
      JoinParts(parts, "/", k);
      JoinOne(last);
      assert parts[k..] == [last] && pattern == (lit + "/") + last && pattern == head + pattern[|head|..];
      SameTail(lit + "/", last, head, pattern[|head|..]);
    }
  }

  lemma JoinOne(last: string)
    ensures Text.Joined([last], "/") == last
  {
  }

  lemma DirnameOf(pattern: string, lit: string)
    requires '/' in pattern && Head(pattern) == lit + "/"
    ensures Dirname(pattern) == (if lit == "" then "/" else lit) <==> lit == "" || lit[|lit| - 1] != '/'
  {
    hide Head;
    assert (lit + "/")[..|lit|] == lit;
    assert Rstrip(lit + "/") == Rstrip(lit);
    RstripShrinks(lit);
  }

  lemma {:induction false} RstripShrinks(s: string)
    ensures |Rstrip(s)| <= |s|
  {
    if s != "" && s[|s| - 1] == '/' { RstripShrinks(s[..|s| - 1]); }
  }

  lemma FlatIsOneListing(pattern: string, lit: string, start: string)
    requires Prefixes(pattern, lit, start) && '/' in pattern
    ensures Flat(pattern, start) <==> OneListing(pattern)
  {
    hide Head, Dirname, Doubled, Literal, Stops, Split, Text.Joined;
    var keep: seq<string> :| 0 < |keep| < |Split(pattern, '/')| && Stops(Split(pattern, '/'), keep)
                             && lit == Text.Joined(keep, "/");
    SlashIsLiteral();
    if Literal(Head(pattern)) {
      WholeHead(pattern, keep, lit);
      DirnameOf(pattern, lit);
    } else if start == Dirname(pattern) {
      HeadLiteral(pattern);
    }
  }

  lemma SlashIsLiteral()
    ensures Literal("/")
  {
  }

  lemma StartsNowhereElse(root: Tree, start: string, names: seq<string>)
    requires Named(root) && start != "" && start[0] == '/' && DirPath(names) == start && Listable(root, names)
    ensures names == NamesOf(start)
  {
    LookedUp(root, names);
    NamesOfSpelt(names);
  }

  ghost predicate Listable(root: Tree, names: seq<string>) { At(root, names).Some? && At(root, names).value.Dir? }

  /** There is a directory of that path. */
  ghost predicate Listed(root: Tree, path: string)
  {
    exists names :: DirPath(names) == path && Listable(root, names)
  }

  lemma ListedAt(root: Tree, start: string)
    requires Named(root) && start != "" && start[0] == '/'
    ensures Listed(root, start) <==> Listable(root, NamesOf(start))
  {
    if start != "/" { SplitPlain(start[1..]); }
    if Listed(root, start) {
      var names :| DirPath(names) == start && Listable(root, names);
      StartsNowhereElse(root, start, names);
    } else {
      assert DirPath(NamesOf(start)) == start;
    }
  }

  /** No matching path is lost by starting at the literal prefix, nor by listing only that where it is enough. */
  lemma NothingLost(root: Tree, pattern: string, lit: string, start: string, p: string)
    requires Named(root) && root.Dir? && Absolute(pattern) && Literal(lit) && lit + "/" <= pattern
    requires start == (if lit == "" then "/" else lit) && start[0] == '/' && '/' in pattern
    requires p in Paths([], root) && Match(Tokens(pattern), p)
    ensures var dir := At(root, NamesOf(start));
            && dir.Some? && p in Paths(NamesOf(start), dir.value)
            && (Flat(pattern, start) ==> dir.value.Dir? && p in EntryPaths(NamesOf(start), dir.value.entries))
  {
    PathsAreThere([], root, p);
    var more :| Below([], root, p, more);
    assert [] + more == more;
    MatchesLieBelow(root, pattern, lit, start, more);
    if Flat(pattern, start) {
      MatchesLieIn(root, pattern, start, more);
      HasNames(root, more);
      NamesOfSpelt(more[..|more| - 1]);
      InListing(root, more);
    }
  }

  /**
    Globbing an absolute, bracket-free pattern over a tree without links whose stat
    ids, where they name something, name different directories. Either
    one directory is listed, or the literal prefix is walked; either way exactly
    the paths of the whole namespace that match come out. A missing prefix fails
    the listing and empties the walk, and then nothing matches; it fails when one
    listing was enough and its directory is not there, and never otherwise.
   */
  method Glob(root: Tree, pattern: string) returns (found: Option<seq<string>>)
    requires Named(root) && root.Dir? && Absolute(pattern)
    requires Distinct(Idents(root))
    ensures found.None? <==> OneListing(pattern) && !Listed(root, Dirname(pattern))
    ensures forall p | p in Paths([], root) && Means(pattern, p) :: found.Some? && p in found.value
    ensures found.Some? ==> forall p | p in found.value :: p in Paths([], root) && Means(pattern, p)
    ensures found.Some? ==> Distinct(found.value)
  {
    forall p: string ensures Match(Tokens(pattern), p) <==> Means(pattern, p) {
      MatchIsMeant(pattern, p);
    }
    var tokens := Compile(pattern);
    var start := LiteralPrefix(pattern);
    ghost var lit :| Prefixes(pattern, lit, start);
    assert pattern[0] in pattern;
    assert lit != "" ==> lit[0] == (lit + "/")[0] == pattern[0];
    FlatIsOneListing(pattern, lit, start);
    ListedAt(root, start);
    var names := NamesOf(start);
    var dir := At(root, names);
    forall p | p in Paths([], root) && Match(tokens, p)
      ensures dir.Some? && p in Paths(names, dir.value)
      ensures Flat(pattern, start) ==> dir.value.Dir? && p in EntryPaths(names, dir.value.entries)
    {
      NothingLost(root, pattern, lit, start, p);
    }
    if dir.None? {
      if Flat(pattern, start) { return None; }
      return Some([]);
    }
    ghost var t := dir.value;
    LookedUp(root, names);
    forall p | p in Paths(names, t) ensures p in Paths([], root) {
      FoundIsThere(root, names, p);
    }
    if Flat(pattern, start) {
      if dir.value.File? { return None; }
      NamedAt(root, names);
      EntriesDistinct(names, dir.value);
      FilterDistinct(tokens, EntryPaths(names, dir.value.entries));
      return Some(Filter(tokens, EntryPaths(names, dir.value.entries)));
    }
    DistinctBelow(root, names);
    WalkSkipsNothing(names, dir.value, {});
    NamedAt(root, names);
    PathsDistinct(names, dir.value);
    FilterDistinct(tokens, Paths(names, dir.value));
    found := Some(Filter(tokens, Found(names, dir.value, {}).0));
  }

  /** A directory found by its names is found by real ones. */
  lemma {:induction false} LookedUp(t: Tree, names: seq<string>)
    requires Named(t) && At(t, names).Some?
    ensures forall i | 0 <= i < |names| :: Name(names[i])
    decreases names
  {
    assert names + [] == names;
    HasBeyond(t, names, []);
    HasNames(t, names);
  }
}
