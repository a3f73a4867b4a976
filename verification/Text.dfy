/** Cutting text at a character, and putting it together again. */
module Text {

  /** Where `c` first stands. */
  function Index(s: string, c: char): (i: nat)
    requires c in s
    ensures i < |s| && s[i] == c && c !in s[..i]
  {
    if s[0] == c then 0
    else
      assert s == [s[0]] + s[1..];
      var i := 1 + Index(s[1..], c);
      assert s[..i] == [s[0]] + s[1..][..i - 1];
      i
  }

  lemma {:induction false} IndexIs(s: string, c: char, i: nat)
    requires i < |s| && s[i] == c && c !in s[..i]
    ensures c in s && Index(s, c) == i
  {
    assert s[i] in s;
    if i > 0 {
      assert s[..i][0] == s[0] && s[..i] == [s[0]] + s[1..][..i - 1];
      IndexIs(s[1..], c, i - 1);
    }
  }

  /** What stands before the first `c`: everything, when there is none. */
  function Before(s: string, c: char): (r: string)
    ensures c !in r
  {
    if c in s then s[..Index(s, c)] else s
  }

  /** What stands after the first `c`: nothing, when there is none. */
  function After(s: string, c: char): (r: string)
    ensures c in s ==> s == Before(s, c) + [c] + r
  {
    if c in s then s[Index(s, c) + 1..] else ""
  }

  lemma CutAt(a: string, c: char, b: string)
    requires c !in a
    ensures Before(a + [c] + b, c) == a && After(a + [c] + b, c) == b
  {
    var s := a + [c] + b;
    assert s[..|a|] == a && s[|a|] == c && s[|a| + 1..] == b;
    IndexIs(s, c, |a|);
  }

  /** What stands after the last `c`: everything, when there is none. */
  function AfterLast(s: string, c: char): (r: string)
    ensures c !in r && |r| <= |s| && s[|s| - |r|..] == r
    ensures c in s ==> |r| < |s| && s[|s| - |r| - 1] == c
    ensures c !in s ==> r == s
  {
    if s == "" || s[|s| - 1] == c then ""
    else
      var r := AfterLast(s[..|s| - 1], c) + [s[|s| - 1]];
      assert s == s[..|s| - 1] + [s[|s| - 1]];
      r
  }

  /** What stands before the last `c`. */
  function BeforeLast(s: string, c: char): (r: string)
    requires c in s
    ensures s == r + [c] + AfterLast(s, c)
  {
    s[..|s| - |AfterLast(s, c)| - 1]
  }

  lemma {:induction false} CutAtLast(a: string, c: char, b: string)
    requires c !in b
    ensures c in a + [c] + b && AfterLast(a + [c] + b, c) == b && BeforeLast(a + [c] + b, c) == a
    decreases |b|
  {
    var s := a + [c] + b;
    assert s[|a|] == c;
    if b != "" {
      assert s[..|s| - 1] == a + [c] + b[..|b| - 1] && b == b[..|b| - 1] + [b[|b| - 1]];
      CutAtLast(a, c, b[..|b| - 1]);
    }
    assert s[..|a|] == a;
  }

  // -- splitting and joining ----------------------------------------------

  function Split(s: string, c: char): (parts: seq<string>)
    ensures |parts| >= 1
    decreases |s|
  {
    if c !in s then [s] else [Before(s, c)] + Split(After(s, c), c)
  }

  function Joined(parts: seq<string>, sep: string): string
  {
    if parts == [] then "" else if |parts| == 1 then parts[0] else parts[0] + sep + Joined(parts[1..], sep)
  }

  ghost predicate Without(parts: seq<string>, c: char)
  {
    forall i | 0 <= i < |parts| :: c !in parts[i]
  }

  lemma {:induction false} SplitJoins(s: string, c: char)
    ensures Joined(Split(s, c), [c]) == s && Without(Split(s, c), c)
    decreases |s|
  {
    if c in s {
      SplitJoins(After(s, c), c);
      assert Split(s, c)[1..] == Split(After(s, c), c);
    }
  }

  lemma CutOnce(a: string, c: char, rest: string)
    requires c !in a
    ensures Split(a + [c] + rest, c) == [a] + Split(rest, c)
  {
    CutAt(a, c, rest);
    assert (a + [c] + rest)[|a|] == c;
  }

  lemma {:induction false} JoinSplits(parts: seq<string>, c: char)
    requires parts != [] && Without(parts, c)
    ensures Split(Joined(parts, [c]), c) == parts
  {
    if |parts| > 1 {
      CutOnce(parts[0], c, Joined(parts[1..], [c]));
      JoinSplits(parts[1..], c);
    }
  }

  lemma {:induction false} JoinParts(parts: seq<string>, sep: string, k: nat)
    requires 0 < k < |parts|
    ensures Joined(parts, sep) == Joined(parts[..k], sep) + sep + Joined(parts[k..], sep)
  {
    if k == 1 {
      assert parts[..1] == [parts[0]];
    } else {
      JoinParts(parts[1..], sep, k - 1);
      assert parts[1..][..k - 1] == parts[..k][1..] && parts[1..][k - 1..] == parts[k..];
    }
  }

  function Lstrip(s: string, c: char): (r: string)
    ensures r == "" || r[0] != c
    ensures s != "" && s[0] != c ==> r == s
  {
    if s != "" && s[0] == c then Lstrip(s[1..], c) else s
  }

  // -- letters ------------------------------------------------------------

  function LowerChar(c: char): char
  {
    if 'A' <= c <= 'Z' then (c as int + 32) as char else c
  }

  /** Text with its ASCII letters lowered. */
  function Lower(s: string): (r: string)
    ensures |r| == |s| && forall i | 0 <= i < |s| :: r[i] == LowerChar(s[i])
  {
    seq(|s|, i requires 0 <= i < |s| => LowerChar(s[i]))
  }

  /** Lowering neither brings in nor takes away what is no letter. */
  lemma LowerKeeps(s: string, c: char)
    requires !('A' <= c <= 'Z') && !('a' <= c <= 'z')
    ensures c in Lower(s) <==> c in s
  {
    if c in s { var i: nat :| i < |s| && s[i] == c; assert Lower(s)[i] == c; }
  }
}
