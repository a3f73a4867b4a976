/**
  Removing a tree. The server's namespace holds directories, files and symbolic
  links; a request names a path, and the server follows every link on the way to
  its last component. What must not happen is that a removal goes through one.
 */
module Removal {
  import opened Wrappers
  import opened Sets

  type Path = seq<string>

  /** A link's target is where it leads in the end; there may be nothing there. */
  datatype Node = Dir | File | Link(target: Path)

  type Tree = map<Path, Node>

  /** Every entry hangs from a real directory. */
  ghost predicate Rooted(t: Tree)
  {
    forall p | p in t && p != [] :: Parent(p) in t && t[Parent(p)].Dir?
  }

  function Parent(p: Path): Path
    requires p != []
  {
    p[..|p| - 1]
  }

  lemma ParentAndName(p: Path)
    requires p != []
    ensures p == Parent(p) + [p[|p| - 1]]
  {
  }

  /** Where following a link at `p` leads; `p` itself when it is not one. */
  function Follow(t: Tree, p: Path): Path
  {
    if p in t && t[p].Link? then t[p].target else p
  }

  predicate IsDir(t: Tree, p: Path) { p in t && t[p].Dir? }

  /** The node a request path names: links are followed everywhere but at the end. */
  function Locate(t: Tree, p: Path): (at: Option<Path>)
  {
    if p == [] then Some([])
    else
      var above := Locate(t, Parent(p));
      if above.None? then None
      else
        var d := Follow(t, above.value);
        if IsDir(t, d) then Some(d + [p[|p| - 1]]) else None
  }

  /** A path that leads through real directories only names itself. */
  ghost predicate Physical(t: Tree, p: Path) { p == [] || IsDir(t, Parent(p)) }

  lemma {:induction false} PhysicalLocates(t: Tree, p: Path)
    requires Rooted(t) && Physical(t, p)
    ensures Locate(t, p) == Some(p)
  {
    if p != [] {
      PhysicalLocates(t, Parent(p));
      assert p == Parent(p) + [p[|p| - 1]];
    }
  }

  /** The request path `p` names the node at `at`, or by now nothing. */
  ghost predicate Leads(t: Tree, p: Path, at: Path) { Locate(t, p) == None || Locate(t, p) == Some(at) }

  /** Taking nodes away makes paths lead nowhere, and never elsewhere. */
  lemma {:induction false} LocateShrinks(was: Tree, now: Tree, p: Path)
    requires forall q | q in now :: q in was && now[q] == was[q]
    ensures Locate(now, p).None? || Locate(now, p) == Locate(was, p)
    decreases |p|
  {
    if p != [] { LocateShrinks(was, now, Parent(p)); }
  }

  /** An entry of a directory that is no link is found through any path to the directory. */
  lemma LeadsBelow(t: Tree, p: Path, at: Path, name: string)
    requires Leads(t, p, at) && (at in t ==> !t[at].Link?)
    ensures Leads(t, p + [name], at + [name])
  {
    assert Parent(p + [name]) == p;
  }

  /** The subtree at `p`, itself included. */
  predicate Under(p: Path, q: Path) { p <= q }

  ghost function Below(t: Tree, p: Path): set<Path> { set q | q in t && Under(p, q) }

  /** `now` is `was` with nodes of the subtree at `p` taken away, and nothing else. */
  ghost predicate Pruned(was: Tree, now: Tree, p: Path)
  {
    && (forall q | q in now :: q in was && now[q] == was[q])
    && (forall q | q in was && q !in now :: Under(p, q))
  }

  lemma PrunedTrans(a: Tree, b: Tree, c: Tree, p: Path, child: Path)
    requires Pruned(a, b, p) && Pruned(b, c, child) && Under(p, child)
    ensures Pruned(a, c, p)
  {
  }

  lemma BelowShrinks(was: Tree, now: Tree, p: Path, child: Path, root: Path)
    requires Pruned(was, now, root) && p in was && Under(p, child) && p != child
    ensures |Below(now, child)| < |Below(was, p)|
  {
    assert Below(now, child) <= Below(was, p) - {p};
    SubsetSize(Below(now, child), Below(was, p) - {p});
  }

  /** Nothing hangs below what is not a directory. */
  lemma {:induction false} LeafAlone(t: Tree, p: Path, q: Path)
    requires Rooted(t) && !IsDir(t, p) && q in t && Under(p, q)
    ensures q == p
    decreases |q|
  {
    if q != p {
      assert Under(p, Parent(q));
      if Parent(q) != p { LeafAlone(t, p, Parent(q)); }
    }
  }

  /** A directory with no entries has nothing below it. */
  lemma {:induction false} EmptyAlone(t: Tree, p: Path, q: Path)
    requires Rooted(t) && q in t && Under(p, q)
    requires forall c | c in t && c != [] :: Parent(c) != p
    ensures q == p
    decreases |q|
  {
    if q != p {
      assert Under(p, Parent(q));
      EmptyAlone(t, p, Parent(q));
    }
  }

  lemma RemovedRooted(t: Tree, q: Path)
    requires Rooted(t) && forall c | c in t && c != [] :: Parent(c) != q
    ensures Rooted(t - {q})
  {
  }

  // -- the server ---------------------------------------------------------

  /** A listing describes what an entry leads to: a link to a directory reads as one. It may carry no stat. */
  datatype Entry = Entry(name: string, isDir: Option<bool>)

  ghost predicate Describes(t: Tree, d: Path, e: Entry)
  {
    && d + [e.name] in t
    && (e.isDir.Some? ==> e.isDir.value == IsDir(t, Follow(t, d + [e.name])))
  }

  /** The path leads to a directory that can be listed. */
  predicate Lists(t: Tree, p: Path) { Locate(t, p).Some? && IsDir(t, Follow(t, Locate(t, p).value)) }

  ghost predicate NamedIn(q: Path, d: Path, entries: seq<Entry>)
  {
    exists i | 0 <= i < |entries| :: q == d + [entries[i].name]
  }

  ghost predicate Once(entries: seq<Entry>)
  {
    forall i, k | 0 <= i < k < |entries| :: entries[i].name != entries[k].name
  }

  /** Every entry of the directory is listed, and once. */
  ghost predicate Complete(t: Tree, d: Path, entries: seq<Entry>)
  {
    Once(entries) && forall q | q in t && q != [] && Parent(q) == d :: NamedIn(q, d, entries)
  }

  lemma OneMoreNamed(d: Path, entries: seq<Entry>, e: Entry)
    ensures forall q :: NamedIn(q, d, entries + [e]) <==> NamedIn(q, d, entries) || q == d + [e.name]
    ensures Once(entries) && !NamedIn(d + [e.name], d, entries) ==> Once(entries + [e])
  {
    var more := entries + [e];
    forall q ensures NamedIn(q, d, more) <==> NamedIn(q, d, entries) || q == d + [e.name] {
      if NamedIn(q, d, entries) {
        var i: nat :| i < |entries| && q == d + [entries[i].name];
        assert more[i] == entries[i];
      }
      assert more[|entries|] == e;
    }
    if Once(entries) && !NamedIn(d + [e.name], d, entries) {
      assert forall i | 0 <= i < |entries| :: d + [entries[i].name] != d + [e.name];
    }
  }

  /** The path's node, an empty directory, is gone and nothing else. */
  ghost predicate DirRemoved(was: Tree, now: Tree, p: Path)
  {
    var at := Locate(was, p);
    && at.Some? && IsDir(was, at.value) && now == was - {at.value}
    && forall c | c in was && c != [] :: Parent(c) != at.value
  }

  /** The path's node, no directory, is gone and nothing else. */
  ghost predicate Unlinked(was: Tree, now: Tree, p: Path)
  {
    var at := Locate(was, p);
    at.Some? && at.value in was && !IsDir(was, at.value) && now == was - {at.value}
  }

  /**
    A request refused or lost, or a wrong answer, at a node; `blind` when it keeps the
    client from what is below the node as well.
   */
  datatype Failure = Failure(at: Path, blind: bool)

  ghost predicate HasChild(t: Tree, p: Path) { exists c :: c in t && c != [] && Parent(c) == p }

  ghost function Noted(log: seq<Failure>, failed: bool, at: Option<Path>, blind: bool): seq<Failure>
  {
    if failed && at.Some? then log + [Failure(at.value, blind)] else log
  }

  datatype Answer<T> = Yes(value: T) | Error

  datatype Rmdir = Removed | NotEmpty | Refused

  class Server {
    var nodes: Tree
    /** Whether it can say which paths are links. */
    const identifies: bool
    /** Every directory whose entries were listed. */
    ghost var listed: set<Path>
    /** What went wrong, in order. A rightful refusal is no failure. */
    ghost var failed: seq<Failure>

    constructor (initial: Tree, identifies: bool)
      requires Rooted(initial)
      ensures Valid() && nodes == initial && listed == {} && failed == [] && this.identifies == identifies
    {
      nodes, this.identifies, listed, failed := initial, identifies, {}, [];
    }

    ghost predicate Valid()
      reads this
    {
      Rooted(nodes)
    }

    /** All entries of the directory `p` leads to, links followed, each once; any request may fail instead. */
    method Scandir(p: Path) returns (r: Answer<seq<Entry>>)
      requires Valid()
      modifies this`listed, this`failed
      ensures r.Yes? ==> Locate(nodes, p).Some?
      ensures r.Yes? ==>
                var d := Follow(nodes, Locate(nodes, p).value);
                && IsDir(nodes, d) && listed == old(listed) + {d}
                && (forall i | 0 <= i < |r.value| :: Describes(nodes, d, r.value[i]))
                && Complete(nodes, d, r.value)
      ensures r.Error? ==> listed == old(listed)
      ensures failed == Noted(old(failed), r.Error? && Lists(nodes, p), Locate(nodes, p), true)
    {
      hide Locate, Follow;
      var at := Locate(nodes, p);
      var lost: bool := *;
      if at.None? || lost || !IsDir(nodes, Follow(nodes, at.value)) {
        failed := Noted(failed, Lists(nodes, p), at, true);
        return Error;
      }
      var d := Follow(nodes, at.value);
      var left := set q | q in nodes && q != [] && Parent(q) == d;
      var entries: seq<Entry> := [];
      while left != {}
        invariant forall q | q in left :: q in nodes && q != [] && Parent(q) == d
        invariant forall i | 0 <= i < |entries| :: Describes(nodes, d, entries[i])
        invariant forall q | q in nodes && q != [] && Parent(q) == d && q !in left :: NamedIn(q, d, entries)
        invariant forall q | q in left :: !NamedIn(q, d, entries)
        invariant Once(entries)
        invariant listed == old(listed) && failed == old(failed)
        decreases left
      {
        var q :| q in left;
        left := left - {q};
        ParentAndName(q);
        var bare: bool := *;
        var entry := Entry(q[|q| - 1], if bare then None else Some(IsDir(nodes, Follow(nodes, q))));
        assert Describes(nodes, d, entry);
        OneMoreNamed(d, entries, entry);
        entries := entries + [entry];
      }
      listed := listed + {d};
      r := Yes(entries);
    }

    /** Whether the path is a link, from a server that can say. */
    method IsLink(p: Path) returns (r: Answer<bool>)
      requires Valid() && identifies
      modifies this`failed
      ensures r.Yes? ==> (r.value <==> var at := Locate(nodes, p);
                                       at.Some? && at.value in nodes && nodes[at.value].Link?)
      ensures failed == Noted(old(failed), r.Error?, Locate(nodes, p), true)
    {
      var lost: bool := *;
      var at := Locate(nodes, p);
      failed := Noted(failed, lost, at, true);
      if lost { return Error; }
      r := Yes(at.Some? && at.value in nodes && nodes[at.value].Link?);
    }

    /** Whether what the path leads to is a directory; `None` for nothing there. */
    method Stat(p: Path) returns (r: Answer<Option<bool>>)
      requires Valid()
      modifies this`failed
      ensures r.Yes? ==>
                var at := Locate(nodes, p);
                r.value == if at.Some? && Follow(nodes, at.value) in nodes
                           then Some(IsDir(nodes, Follow(nodes, at.value))) else None
      ensures failed == Noted(old(failed), r.Error?, Locate(nodes, p), true)
    {
      var lost: bool := *;
      var at := Locate(nodes, p);
      failed := Noted(failed, lost, at, true);
      if lost { return Error; }
      r := Yes(if at.Some? && Follow(nodes, at.value) in nodes
               then Some(IsDir(nodes, Follow(nodes, at.value))) else None);
    }

    /**
      Removes an empty directory, never through a link at the end of the path, and calls only
      a directory not empty. A request that fails may have been carried out all the same.
      To refuse what is no directory is right; to call an empty one not empty is not.
     */
    method RemoveDir(p: Path) returns (r: Rmdir)
      requires Valid()
      modifies this`nodes, this`failed
      ensures Valid()
      ensures r.Removed? ==> DirRemoved(old(nodes), nodes, p)
      ensures r.NotEmpty? ==>
                nodes == old(nodes) && Locate(nodes, p).Some? && IsDir(nodes, Locate(nodes, p).value)
      ensures r.Refused? ==> nodes == old(nodes) || DirRemoved(old(nodes), nodes, p)
      ensures var at := Locate(old(nodes), p);
              && (r.Refused? ==> failed == Noted(old(failed), at.Some? && IsDir(old(nodes), at.value), at,
                                                 at.Some? && HasChild(old(nodes), at.value)))
              && (r.NotEmpty? ==> failed == Noted(old(failed), !HasChild(nodes, at.value), at, false))
              && (r.Removed? ==> failed == old(failed))
    {
      var at := Locate(nodes, p);
      var refused: bool, lost: bool := *, *;
      if refused || at.None? || !IsDir(nodes, at.value) {
        failed := Noted(failed, at.Some? && IsDir(nodes, at.value), at, at.Some? && HasChild(nodes, at.value));
        return Refused;
      }
      if exists c :: c in nodes && c != [] && Parent(c) == at.value { return NotEmpty; }
      failed := Noted(failed, lost, at, false);
      RemovedRooted(nodes, at.value);
      nodes := nodes - {at.value};
      r := if lost then Refused else Removed;
    }

    /**
      Unlinks a file or a link, as unlink(2) does; a server may refuse either, or the
      answer be lost. To refuse a directory, or what is not there, is right.
     */
    method Remove(p: Path) returns (ok: bool)
      requires Valid()
      modifies this`nodes, this`failed
      ensures Valid()
      ensures ok ==> Unlinked(old(nodes), nodes, p)
      ensures !ok ==> nodes == old(nodes) || Unlinked(old(nodes), nodes, p)
      ensures var at := Locate(old(nodes), p);
              failed == Noted(old(failed), !ok && at.Some? && at.value in old(nodes) && !IsDir(old(nodes), at.value),
                              at, false)
    {
      var at := Locate(nodes, p);
      var refused: bool, lost: bool := *, *;
      var there := at.Some? && at.value in nodes && !IsDir(nodes, at.value);
      failed := Noted(failed, (refused || lost) && there, at, false);
      if refused || !there { return false; }
      forall c | c in nodes && c != [] ensures Parent(c) != at.value { }
      RemovedRooted(nodes, at.value);
      nodes := nodes - {at.value};
      ok := !lost;
    }
  }

  // -- the removal --------------------------------------------------------

  datatype Outcome = Fine | Raised

  /** Only the subtree lost nodes, and only real directories of it were listed. */
  twostate predicate Contained(s: Server, p: Path)
    reads s
  {
    && Pruned(old(s.nodes), s.nodes, p)
    && (forall d | d in s.listed && d !in old(s.listed) :: Under(p, d) && IsDir(old(s.nodes), d))
  }

  ghost predicate Gone(t: Tree, p: Path) { forall q | q in t :: !Under(p, q) }

  // -- who is to blame for what is left ------------------------------------

  /** A failure at a node keeps it and what it hangs from; a blind one everything below it too. */
  predicate Blames(f: Failure, q: Path) { Under(q, f.at) || (f.blind && Under(f.at, q)) }

  ghost predicate Blamed(log: seq<Failure>, q: Path) { exists k | 0 <= k < |log| :: Blames(log[k], q) }

  ghost predicate AllBlamed(t: Tree, log: seq<Failure>, at: Path)
  {
    forall q | q in t && Under(at, q) :: Blamed(log, q)
  }

  ghost predicate Inside(log: seq<Failure>, at: Path) { forall k | 0 <= k < |log| :: Under(at, log[k].at) }

  /** The failures noted since the log was `n` long. */
  ghost function Since(log: seq<Failure>, n: nat): seq<Failure> { if n <= |log| then log[n..] else [] }

  /** The log has grown, by failures in the subtree. */
  ghost predicate Grown(was: seq<Failure>, now: seq<Failure>, at: Path)
  {
    |was| <= |now| && now[..|was|] == was && Inside(Since(now, |was|), at)
  }

  lemma GrownOn(a: seq<Failure>, b: seq<Failure>, c: seq<Failure>, at: Path, child: Path)
    requires Grown(a, b, at) && Grown(b, c, child) && Under(at, child)
    ensures Grown(a, c, at) && Since(c, |a|) == Since(b, |a|) + Since(c, |b|) && |a| <= |b| <= |c|
  {
    assert c[|a|..] == b[|a|..] + c[|b|..];
    forall k | 0 <= k < |Since(c, |a|)| ensures Under(at, Since(c, |a|)[k].at) {
      if k >= |b| - |a| { assert Since(c, |a|)[k] == Since(c, |b|)[k - (|b| - |a|)]; }
      else { assert Since(c, |a|)[k] == Since(b, |a|)[k]; }
    }
  }

  lemma BlamedStill(was: Tree, now: Tree, log: seq<Failure>, more: seq<Failure>, at: Path)
    requires AllBlamed(was, log, at) && forall q | q in now && Under(at, q) :: q in was
    ensures AllBlamed(now, log + more, at) && AllBlamed(now, more + log, at)
  {
    forall q | q in now && Under(at, q) ensures Blamed(log + more, q) && Blamed(more + log, q) {
      var k: nat :| k < |log| && Blames(log[k], q);
      assert (log + more)[k] == log[k] && (more + log)[|more| + k] == log[k];
    }
  }

  /** Everything on the way down to a node is there. */
  lemma {:induction false} WayThere(t: Tree, q: Path, n: nat)
    requires Rooted(t) && q in t && n <= |q|
    ensures q[..n] in t
    decreases |q|
  {
    if n < |q| {
      WayThere(t, Parent(q), n);
      assert Parent(q)[..n] == q[..n];
    } else {
      assert q[..n] == q;
    }
  }

  /** With every entry's subtree accounted for, all below the directory is. */
  lemma EntriesBlamed(t: Tree, log: seq<Failure>, at: Path, entries: seq<Entry>, q: Path)
    requires Rooted(t) && Complete(t, at, entries) && q in t && Under(at, q) && q != at
    requires forall i | 0 <= i < |entries| :: AllBlamed(t, log, at + [entries[i].name])
    ensures Blamed(log, q)
  {
    var c := q[..|at| + 1];
    WayThere(t, q, |at| + 1);
    assert Parent(c) == at;
    assert NamedIn(c, at, entries);
    var i: nat :| i < |entries| && c == at + [entries[i].name];
    assert Under(c, q);
  }

  /** And so is the directory itself, if anything failed below it. */
  lemma DirBlamed(log: seq<Failure>, at: Path)
    requires log != [] && Inside(log, at)
    ensures Blamed(log, at)
  {
    assert Blames(log[0], at);
  }

  /** What a listing says of a node that is not a link is so. */
  ghost predicate Tells(t: Tree, p: Path, e: Entry)
    requires p in t
  {
    e.isDir.Some? ==> if e.isDir.value then !t[p].File? else !t[p].Dir?
  }

  lemma AllThere(t: Tree, d: Path, entries: seq<Entry>)
    requires forall i | 0 <= i < |entries| :: Describes(t, d, entries[i])
    ensures forall i | 0 <= i < |entries| :: d + [entries[i].name] in t
  {
  }

  lemma DescribesTells(was: Tree, now: Tree, at: Path, e: Entry)
    requires Describes(was, at, e) && at + [e.name] in now && now[at + [e.name]] == was[at + [e.name]]
    ensures Tells(now, at + [e.name], e)
  {
  }

  /** Raised, something failed; otherwise a failure is to blame for every node that is left. */
  twostate predicate Accounted(s: Server, at: Path, r: Outcome)
    reads s
  {
    && (r.Raised? ==> |s.failed| > |old(s.failed)|)
    && (r.Fine? ==> AllBlamed(s.nodes, Since(s.failed, |old(s.failed)|), at))
  }

  /** A path that leads through real directories to a directory. */
  ghost predicate Plain(t: Tree, p: Path, at: Path) { p == at && Physical(t, at) && IsDir(t, at) }

  ghost predicate Sure(t: Tree, p: Path, at: Path, e: Entry)
  {
    p == at && Physical(t, at) && at in t && Tells(t, at, e)
  }

  ghost predicate Located(t: Tree, p: Path, at: Path) { p == at && Locate(t, p) == Some(at) && Physical(t, at) }

  lemma NotedGrows(log: seq<Failure>, failed: bool, place: Option<Path>, blind: bool, at: Path)
    requires place.Some? ==> place.value == at
    ensures Grown(log, Noted(log, failed, place, blind), at)
    ensures !failed || place.None? ==> Noted(log, failed, place, blind) == log
    ensures Since(Noted(log, failed, place, blind), |log|) == if failed && place.Some? then [Failure(at, blind)] else []
    ensures |Noted(log, failed, place, blind)| == |log| + if failed && place.Some? then 1 else 0
  {
  }

  lemma NoneSince(log: seq<Failure>)
    ensures Since(log, |log|) == []
  {
  }

  lemma GoneBlamed(t: Tree, log: seq<Failure>, at: Path)
    requires Gone(t, at)
    ensures AllBlamed(t, log, at)
  {
  }

  lemma NoneToBlame(t: Tree, at: Path)
    requires AllBlamed(t, [], at)
    ensures Gone(t, at)
  {
    assert forall q :: !Blamed([], q);
  }

  lemma BlindBlames(t: Tree, log: seq<Failure>, at: Path)
    requires Failure(at, true) in log
    ensures AllBlamed(t, log, at)
  {
    var k: nat :| k < |log| && log[k] == Failure(at, true);
    forall q | q in t && Under(at, q) ensures Blamed(log, q) { assert Blames(log[k], q); }
  }

  /** A directory not removed is to blame for all in it, or if it is empty for itself. */
  lemma RefusedBlames(was: Tree, now: Tree, log: seq<Failure>, at: Path)
    requires Rooted(was) && at in was && Pruned(was, now, at) && log == [Failure(at, HasChild(was, at))]
    ensures AllBlamed(now, log, at)
  {
    if HasChild(was, at) {
      BlindBlames(now, log, at);
    } else {
      forall q | q in now && Under(at, q) ensures Blamed(log, q) {
        EmptyAlone(was, at, q);
        assert Blames(log[0], q);
      }
    }
  }

  lemma LeafBlamed(was: Tree, now: Tree, log: seq<Failure>, at: Path)
    requires Rooted(was) && at in was && !IsDir(was, at) && Pruned(was, now, at) && log == [Failure(at, false)]
    ensures AllBlamed(now, log, at)
  {
    forall q | q in now && Under(at, q) ensures Blamed(log, q) {
      LeafAlone(was, at, q);
      assert Blames(log[0], q);
    }
  }

  /** What is accounted for from a later moment on is from an earlier one. */
  lemma AccountsOn(t: Tree, a: seq<Failure>, b: seq<Failure>, c: seq<Failure>, at: Path, child: Path)
    requires Grown(a, b, at) && Grown(b, c, child) && Under(at, child)
    ensures Grown(a, c, at) && |a| <= |b| <= |c|
    ensures AllBlamed(t, Since(c, |b|), child) ==> AllBlamed(t, Since(c, |a|), child)
  {
    GrownOn(a, b, c, at, child);
    if AllBlamed(t, Since(c, |b|), child) { BlamedStill(t, t, Since(c, |b|), Since(b, |a|), child); }
  }

  lemma BlamedOn(t: Tree, a: seq<Failure>, b: seq<Failure>, c: seq<Failure>, at: Path)
    requires Grown(a, b, at) && Grown(b, c, at)
    ensures AllBlamed(t, Since(b, |a|), at) ==> AllBlamed(t, Since(c, |a|), at)
  {
    GrownOn(a, b, c, at, at);
    if AllBlamed(t, Since(b, |a|), at) { BlamedStill(t, t, Since(b, |a|), Since(c, |b|), at); }
  }

  lemma Siblings(at: Path, entries: seq<Entry>, i: nat, k: nat)
    requires i < k < |entries| && Once(entries)
    ensures !Under(at + [entries[i].name], at + [entries[k].name])
  {
    var a, b := at + [entries[i].name], at + [entries[k].name];
    assert a[|at|] == entries[i].name && b[|at|] == entries[k].name;
  }

  /** One entry done: those before it stay accounted for, those after it untouched. */
  lemma OneMoreEntry(first: Tree, was: Tree, now: Tree, log: seq<Failure>, noted: seq<Failure>, after: seq<Failure>,
                     at: Path, entries: seq<Entry>, i: nat)
    requires i < |entries| && Complete(first, at, entries) && Pruned(was, now, at + [entries[i].name])
    requires Grown(log, noted, at) && Grown(noted, after, at + [entries[i].name])
    requires AllBlamed(now, Since(after, |noted|), at + [entries[i].name])
    requires forall k | 0 <= k < i :: AllBlamed(was, Since(noted, |log|), at + [entries[k].name])
    requires forall k | i <= k < |entries| :: at + [entries[k].name] in was
    ensures forall k | 0 <= k < i + 1 :: AllBlamed(now, Since(after, |log|), at + [entries[k].name])
    ensures forall k | i + 1 <= k < |entries| :: at + [entries[k].name] in now
  {
    hide Grown, Since, AllBlamed, Under, Once;
    var child := at + [entries[i].name];
    AccountsOn(now, log, noted, after, at, child);
    GrownOn(log, noted, after, at, child);
    forall k | 0 <= k < i + 1 ensures AllBlamed(now, Since(after, |log|), at + [entries[k].name]) {
      if k < i { BlamedStill(was, now, Since(noted, |log|), Since(after, |noted|), at + [entries[k].name]); }
    }
    forall k | i + 1 <= k < |entries| ensures at + [entries[k].name] in now { Siblings(at, entries, i, k); }
  }

  /** The directory itself, once its entries are done. */
  lemma LastBlames(first: Tree, was: Tree, now: Tree, log: seq<Failure>, noted: seq<Failure>, after: seq<Failure>,
                   at: Path, entries: seq<Entry>, full: bool, refused: bool)
    requires Rooted(was) && Rooted(now) && Pruned(first, was, at) && Pruned(was, now, at) && IsDir(was, at)
    requires Complete(first, at, entries) && Grown(log, noted, at) && Grown(noted, after, at)
    requires forall k | 0 <= k < |entries| :: AllBlamed(was, Since(noted, |log|), at + [entries[k].name])
    requires refused ==> Since(after, |noted|) == [Failure(at, HasChild(was, at))]
    requires full ==> now == was && (Since(after, |noted|) != [] || HasChild(now, at))
    requires !full && !refused ==> Gone(now, at)
    ensures AllBlamed(now, Since(after, |log|), at)
    ensures full || refused ==> |after| > |log|
  {
    GrownOn(log, noted, after, at, at);
    var all := Since(after, |log|);
    forall k | 0 <= k < |entries| ensures AllBlamed(now, all, at + [entries[k].name]) {
      BlamedStill(was, now, Since(noted, |log|), Since(after, |noted|), at + [entries[k].name]);
    }
    assert Complete(now, at, entries);
    if full && Since(after, |noted|) == [] {
      var c :| c in now && c != [] && Parent(c) == at;
      assert NamedIn(c, at, entries);
      var i: nat :| i < |entries| && c == at + [entries[i].name];
      assert Blamed(all, c);
    }
    forall q | q in now && Under(at, q) ensures Blamed(all, q) {
      if q == at { DirBlamed(all, at); } else { EntriesBlamed(now, all, at, entries, q); }
    }
  }

  class TreeRemoval {
    const server: Server
    const ignoreErrors: bool

    constructor (server: Server, ignoreErrors: bool)
      ensures this.server == server && this.ignoreErrors == ignoreErrors
    {
      this.server, this.ignoreErrors := server, ignoreErrors;
    }

    /** A failure is raised, or let go. */
    function Fail(): Outcome { if ignoreErrors then Fine else Raised }

    /**
      Remove the tree at `target`, wherever the links on its path lead: `at`. Whatever
      the server can or cannot say about links, and whatever fails, only nodes of the
      physical tree at `at` are removed and only its directories listed; a link as the
      target is refused, and a path that leads nowhere touches nothing. If errors are
      not ignored and it returns, the tree is gone. Errors ignored or not, it raises only
      if something failed, and a failure is to blame for every node that is left; so with
      no failure the tree is gone.
     */
    method Run(target: Path) returns (r: Outcome)
      requires server.Valid()
      modifies server
      ensures server.Valid()
      ensures Locate(old(server.nodes), target).None? ==>
                server.nodes == old(server.nodes) && server.listed == old(server.listed) && (r.Fine? ==> ignoreErrors)
      ensures Locate(old(server.nodes), target).Some? ==>
                var at := Locate(old(server.nodes), target).value;
                && Contained(server, at)
                && (r.Fine? && !ignoreErrors ==> Gone(server.nodes, at))
                && (at in old(server.nodes) && old(server.nodes)[at].Link? ==>
                      server.nodes == old(server.nodes) && server.listed == old(server.listed))
      ensures Physical(old(server.nodes), target) && IsDir(old(server.nodes), target) ==>
                && Accounted(server, target, r)
                && (|server.failed| == |old(server.failed)| ==> r.Fine? && Gone(server.nodes, target))
    {
      hide Grown, Since, AllBlamed, HasChild, Noted;
      ghost var at := if Locate(server.nodes, target).Some? then Locate(server.nodes, target).value else target;
      ghost var log := server.failed;
      if Physical(server.nodes, target) { PhysicalLocates(server.nodes, target); }
      r := Sweep(target, at);
      NoneSince(server.failed);
      if AllBlamed(server.nodes, [], at) { NoneToBlame(server.nodes, at); }
    }

    /** The removal, at the place the target leads to. */
    method Sweep(target: Path, ghost at: Path) returns (r: Outcome)
      requires server.Valid() && Leads(server.nodes, target, at)
      modifies server
      ensures server.Valid() && Contained(server, at)
      ensures Locate(old(server.nodes), target).None? || (at in old(server.nodes) && old(server.nodes)[at].Link?) ==>
                server.nodes == old(server.nodes) && server.listed == old(server.listed)
      ensures Locate(old(server.nodes), target).None? ==> (r.Fine? ==> ignoreErrors)
      ensures r.Fine? && !ignoreErrors ==> Gone(server.nodes, at)
      ensures Plain(old(server.nodes), target, at) ==> Accounted(server, at, r)
    {
      hide Grown, Since, AllBlamed, HasChild, Noted, Locate, Rooted;
      ghost var was, log := server.nodes, server.failed;
      if Plain(was, target, at) { PhysicalLocates(was, at); }
      if server.identifies {
        NotedGrows(log, true, Locate(was, target), true, at);
        NotedGrows(log, false, Locate(was, target), true, at);
        var link := server.IsLink(target);
        if link.Error? { return Raised; }
        if link.value { return Fail(); }
        r := Clear(target, at);
      } else {
        var full, refused := Full(target, at);
        ghost var noted := server.failed;
        if refused {
          if Plain(was, target, at) { RefusedBlames(was, server.nodes, Since(noted, |log|), at); }
          r := Fail();
        } else if full {
          r := Clear(target, at);
          AccountsOn(server.nodes, log, noted, server.failed, at, at);
        } else {
          r := Fine;
          GoneBlamed(server.nodes, Since(noted, |log|), at);
        }
      }
    }

    /** The server's answer to removing a directory tells what it is. A refusal may hide a removal. */
    method Full(path: Path, ghost at: Path) returns (full: bool, refused: bool)
      requires server.Valid() && Leads(server.nodes, path, at)
      modifies server`nodes, server`failed
      ensures server.Valid() && Contained(server, at) && Grown(old(server.failed), server.failed, at)
      ensures full ==> !refused
      ensures !refused ==> Locate(old(server.nodes), path) == Some(at) && IsDir(old(server.nodes), at)
      ensures full ==> server.nodes == old(server.nodes)
      ensures Locate(old(server.nodes), path).None? || !IsDir(old(server.nodes), at) ==>
                refused && server.nodes == old(server.nodes) && server.failed == old(server.failed)
      ensures !full && !refused ==> Gone(server.nodes, at)
      ensures Plain(old(server.nodes), path, at) ==>
                var noted := Since(server.failed, |old(server.failed)|);
                && (refused ==> noted == [Failure(at, HasChild(old(server.nodes), at))])
                && (refused ==> |server.failed| > |old(server.failed)|)
                && (full ==> noted != [] || HasChild(server.nodes, at))
    {
      if Plain(server.nodes, path, at) { PhysicalLocates(server.nodes, at); }
      var answer := server.RemoveDir(path);
      full, refused := answer.NotEmpty?, answer.Refused?;
      if answer.Removed? {
        forall q | q in server.nodes && Under(at, q) ensures false { EmptyAlone(old(server.nodes), at, q); }
      }
    }

    /**
      Take away what a listing names: files and links go at once, directories with all
      that is in them. The listing may be out of date by now - a link's target may have
      gone with an earlier entry - so nothing is asked of what it says.
     */
    method Entry(path: Path, entry: Entry, ghost at: Path) returns (r: Outcome)
      requires server.Valid() && Leads(server.nodes, path, at)
      modifies server
      ensures server.Valid() && Contained(server, at) && Grown(old(server.failed), server.failed, at)
      ensures r.Fine? && !ignoreErrors ==> Gone(server.nodes, at)
      ensures Sure(old(server.nodes), path, at, entry) ==> Accounted(server, at, r)
      decreases |Below(server.nodes, at)|, 2
    {
      hide Grown, AllBlamed, Since, Locate, Noted, Rooted;
      ghost var was, log := server.nodes, server.failed;
      if Sure(was, path, at, entry) { PhysicalLocates(was, at); }
      var isDir := entry.isDir;
      if isDir.None? {
        NotedGrows(log, true, Locate(was, path), true, at);
        var info := server.Stat(path);
        if info.Error? { return Raised; }
        isDir := info.value;
      }
      NotedGrows(log, false, Locate(was, path), true, at);
      if isDir != Some(true) {
        r := Unlink(path, at);
      } else if server.identifies {
        NotedGrows(log, true, Locate(was, path), true, at);
        var link := server.IsLink(path);
        if link.Error? { return Raised; }
        if link.value { r := Unlink(path, at); } else { r := Clear(path, at); }
      } else {
        r := Ask(path, at);
      }
    }

    /** An entry that reads as a directory, from a server that cannot say whether it is a link to one. */
    method Ask(path: Path, ghost at: Path) returns (r: Outcome)
      requires server.Valid() && Leads(server.nodes, path, at)
      modifies server
      ensures server.Valid() && Contained(server, at) && Grown(old(server.failed), server.failed, at)
      ensures r.Fine? && !ignoreErrors ==> Gone(server.nodes, at)
      ensures at in old(server.nodes) && Located(old(server.nodes), path, at) ==> Accounted(server, at, r)
      decreases |Below(server.nodes, at)|, 1
    {
      hide Grown, AllBlamed, Since, Locate, Noted, Rooted, HasChild;
      ghost var was, log := server.nodes, server.failed;
      var full, refused := Full(path, at);
      ghost var mid, noted := server.nodes, server.failed;
      if refused {
        LocateShrinks(was, mid, path);
        r := Unlink(path, at);
        PrunedTrans(was, mid, server.nodes, at, at);
        GrownOn(log, noted, server.failed, at, at);
        if Plain(was, path, at) { RefusedBlames(was, server.nodes, Since(noted, |log|), at); }
        BlamedOn(server.nodes, log, noted, server.failed, at);
      } else if full {
        r := Clear(path, at);
        AccountsOn(server.nodes, log, noted, server.failed, at, at);
      } else {
        r := Fine;
        GoneBlamed(server.nodes, Since(server.failed, |log|), at);
      }
    }

    method Unlink(path: Path, ghost at: Path) returns (r: Outcome)
      requires server.Valid() && Leads(server.nodes, path, at)
      modifies server`nodes, server`failed
      ensures server.Valid() && Contained(server, at) && Grown(old(server.failed), server.failed, at)
      ensures r.Fine? && !ignoreErrors ==> Gone(server.nodes, at)
      ensures Locate(old(server.nodes), path) == Some(at) && at in old(server.nodes) && !IsDir(old(server.nodes), at)
              ==> Accounted(server, at, r)
    {
      ghost var was, log := server.nodes, server.failed;
      var ok := server.Remove(path);
      if ok {
        forall q | q in server.nodes && Under(at, q) ensures false { LeafAlone(was, at, q); }
        r := Fine;
      } else {
        if at in was && !IsDir(was, at) && Locate(was, path) == Some(at) {
          LeafBlamed(was, server.nodes, Since(server.failed, |log|), at);
        }
        r := Fail();
      }
    }

    /** Empties a directory known to be no link, entry by entry as listed, and then takes it away. */
    method Clear(path: Path, ghost at: Path) returns (r: Outcome)
      requires server.Valid() && Leads(server.nodes, path, at)
      requires Locate(server.nodes, path).Some? && at in server.nodes ==> !server.nodes[at].Link?
      modifies server
      ensures server.Valid() && Contained(server, at) && Grown(old(server.failed), server.failed, at)
      ensures r.Fine? && !ignoreErrors ==> Gone(server.nodes, at)
      ensures Locate(old(server.nodes), path).None? ==>
                server.nodes == old(server.nodes) && server.listed == old(server.listed) && (r.Fine? ==> ignoreErrors)
      ensures Plain(old(server.nodes), path, at) ==> Accounted(server, at, r)
      decreases |Below(server.nodes, at)|, 0
    {
      hide Grown, AllBlamed, Since, Locate, Noted, Rooted, Complete, Describes, Tells, HasChild, Blamed, Once;
      ghost var was, log := server.nodes, server.failed;
      ghost var plain := Plain(was, path, at);
      if plain { PhysicalLocates(was, at); }
      NotedGrows(log, Lists(was, path), Locate(was, path), true, at);
      var listing := server.Scandir(path);
      if listing.Error? {
        if plain { BlindBlames(server.nodes, Since(server.failed, |log|), at); }
        return Fail();
      }
      NotedGrows(log, false, Locate(was, path), true, at);
      var entries := listing.value;
      assert Follow(was, at) == at;
      AllThere(was, at, entries);
      for i := 0 to |entries|
        invariant server.Valid() && Contained(server, at) && was == old(server.nodes) && log == old(server.failed)
        invariant IsDir(server.nodes, at) && Grown(log, server.failed, at)
        invariant plain ==> forall k | 0 <= k < i ::
                    AllBlamed(server.nodes, Since(server.failed, |log|), at + [entries[k].name])
        invariant plain ==> forall k | i <= k < |entries| :: at + [entries[k].name] in server.nodes
      {
        ghost var child := at + [entries[i].name];
        LocateShrinks(was, server.nodes, path);
        LeadsBelow(server.nodes, path, at, entries[i].name);
        BelowShrinks(was, server.nodes, at, child, at);
        ghost var before, noted := server.nodes, server.failed;
        if plain { DescribesTells(was, before, at, entries[i]); }
        r := Entry(path + [entries[i].name], entries[i], child);
        PrunedTrans(was, before, server.nodes, at, child);
        GrownOn(log, noted, server.failed, at, child);
        if r.Raised? { return; }
        if plain { OneMoreEntry(was, before, server.nodes, log, noted, server.failed, at, entries, i); }
      }
      LocateShrinks(was, server.nodes, path);
      ghost var emptied, noted := server.nodes, server.failed;
      var full, refused := Full(path, at);
      GrownOn(log, noted, server.failed, at, at);
      if plain { LastBlames(was, emptied, server.nodes, log, noted, server.failed, at, entries, full, refused); }
      r := if full || refused then Fail() else Fine;
    }
  }
}
