/**
  Walking a remote namespace that links may turn into a graph with cycles. A
  directory is known by the stat id the server gives it, its device and inode.
 */
module Walk {
  import opened Wrappers
  import opened Sets

  type Ident = string

  /** One entry of a listing: a directory carries its id, and may be reached through a link. */
  datatype Child = Child(name: string, dir: Option<Ident>, link: bool)

  /** Every directory's listing; `None` for one that cannot be listed. */
  type Graph = map<Ident, Option<seq<Child>>>

  datatype Visit = Visit(path: string, ident: Ident, dirs: seq<string>, files: seq<string>)

  /** A child's path, without doubling a slash the directory's already ends in. */
  function Join(path: string, name: string): string
  {
    if path != "" && path[|path| - 1] == '/' then path + name else path + "/" + name
  }

  /** An id of zeros and colons, or none at all, names nothing. */
  predicate Identifies(ident: Ident)
  {
    exists i | 0 <= i < |ident| :: ident[i] != '0' && ident[i] != ':'
  }

  /** Whether the walk takes this entry for a directory to enter. */
  predicate Follows(c: Child, followLinks: bool, linksKnown: bool)
  {
    c.dir.Some? && (followLinks || !(linksKnown && c.link))
  }

  function Entries(g: Graph, d: Ident): seq<Child>
  {
    if d in g && g[d].Some? then g[d].value else []
  }

  /** The directories one step from `d`. */
  ghost function Next(g: Graph, follow: bool, known: bool, d: Ident): set<Ident>
  {
    set c | c in Entries(g, d) && Follows(c, follow, known) :: c.dir.value
  }

  /** Every directory that is listed has an id of its own and a place in the graph. */
  ghost predicate Identified(g: Graph)
  {
    forall d, c | d in g && c in Entries(g, d) && c.dir.Some? :: Identifies(c.dir.value) && c.dir.value in g
  }

  /** `trail` goes from directory to directory, one entry at a time. */
  ghost predicate Trail(g: Graph, follow: bool, known: bool, trail: seq<Ident>)
  {
    |trail| > 0 && forall i, k | 0 <= i < k < |trail| && k == i + 1 :: trail[k] in Next(g, follow, known, trail[i])
  }

  /** `x` can be reached from `d` in one step or more. */
  ghost predicate Reaches(g: Graph, follow: bool, known: bool, d: Ident, x: Ident)
  {
    exists trail: seq<Ident> ::
      Trail(g, follow, known, trail) && |trail| > 1 && trail[0] == d && trail[|trail| - 1] == x
  }

  lemma ReachesNext(g: Graph, follow: bool, known: bool, d: Ident, x: Ident)
    requires x in Next(g, follow, known, d)
    ensures Reaches(g, follow, known, d, x)
  {
    assert Trail(g, follow, known, [d, x]);
  }

  /** `s` holds a directory's successors, and the successors of everything in it. */
  ghost predicate Closed(g: Graph, follow: bool, known: bool, d: Ident, s: set<Ident>)
  {
    Next(g, follow, known, d) <= s && forall x | x in s :: Next(g, follow, known, x) <= s
  }

  /** `x` is in every such set: the same as being reachable, in a form that needs no trail. */
  ghost predicate Due(g: Graph, follow: bool, known: bool, d: Ident, x: Ident)
  {
    forall s: set<Ident> :: Closed(g, follow, known, d, s) ==> x in s
  }

  lemma {:induction false} ClosedHoldsTrail(g: Graph, follow: bool, known: bool, d: Ident, s: set<Ident>,
                                            trail: seq<Ident>)
    requires Closed(g, follow, known, d, s)
    requires Trail(g, follow, known, trail) && |trail| > 1 && trail[0] == d
    ensures trail[|trail| - 1] in s
    decreases |trail|
  {
    assert trail[1] in Next(g, follow, known, trail[0]);
    if |trail| > 2 {
      var rest := trail[1..];
      forall i, k | 0 <= i < k < |rest| && k == i + 1 ensures rest[k] in Next(g, follow, known, rest[i]) {
        assert trail[k + 1] in Next(g, follow, known, trail[i + 1]);
      }
      ClosedHoldsTrail(g, follow, known, rest[0], s, rest);
    }
  }

  lemma {:induction false} TrailExtends(g: Graph, follow: bool, known: bool, d: Ident, x: Ident, y: Ident)
    requires Reaches(g, follow, known, d, x) && y in Next(g, follow, known, x)
    ensures Reaches(g, follow, known, d, y)
  {
    var trail: seq<Ident> :| Trail(g, follow, known, trail) && |trail| > 1 && trail[0] == d && trail[|trail| - 1] == x;
    var longer := trail + [y];
    forall i, k | 0 <= i < k < |longer| && k == i + 1 ensures longer[k] in Next(g, follow, known, longer[i]) {
      if k < |trail| { assert trail[k] in Next(g, follow, known, trail[i]); }
    }
    assert Trail(g, follow, known, longer);
  }

  /** Being due is being reachable. */
  lemma DueIsReachable(g: Graph, follow: bool, known: bool, d: Ident, x: Ident)
    requires Identified(g) && d in g
    ensures Due(g, follow, known, d, x) <==> Reaches(g, follow, known, d, x)
  {
    if Reaches(g, follow, known, d, x) {
      var trail: seq<Ident> :|
        Trail(g, follow, known, trail) && |trail| > 1 && trail[0] == d && trail[|trail| - 1] == x;
      forall s: set<Ident> | Closed(g, follow, known, d, s) ensures x in s {
        ClosedHoldsTrail(g, follow, known, d, s, trail);
      }
    }
    if Due(g, follow, known, d, x) {
      var all := set y | y in g && Reaches(g, follow, known, d, y);
      forall y | y in Next(g, follow, known, d) ensures y in all { ReachesNext(g, follow, known, d, y); }
      forall y, z | y in all && z in Next(g, follow, known, y) ensures z in all {
        TrailExtends(g, follow, known, d, y, z);
      }
      assert Closed(g, follow, known, d, all);
    }
  }

  predicate Distinct(s: seq<Ident>) { forall i, k | 0 <= i < k < |s| :: s[i] != s[k] }

  ghost function Elements(s: seq<Ident>): set<Ident> { set x | x in s }

  /** The names of the directories of a listing, and of everything else, each in listing order. */
  function Partition(entries: seq<Child>, dirs: bool): seq<string>
  {
    if entries == [] then []
    else (if entries[0].dir.Some? == dirs then [entries[0].name] else []) + Partition(entries[1..], dirs)
  }

  /** The places of the entries that are directories, or of those that are not. */
  ghost predicate Picks(entries: seq<Child>, dirs: bool, at: seq<nat>)
  {
    && (forall j, k | 0 <= j < k < |at| :: at[j] < at[k])
    && (forall i: nat :: i in at <==> i < |entries| && entries[i].dir.Some? == dirs)
  }

  /** The names at those places, in listing order. */
  ghost predicate NamedAt(entries: seq<Child>, at: seq<nat>, names: seq<string>)
  {
    |at| == |names| && forall k | 0 <= k < |at| :: at[k] < |entries| && entries[at[k]].name == names[k]
  }

  ghost function Shifted(at: seq<nat>): (later: seq<nat>)
    ensures |later| == |at| && (forall k | 0 <= k < |at| :: later[k] == at[k] + 1) && 0 !in later
    ensures forall i: nat :: i + 1 in later <==> i in at
  {
    var later := seq(|at|, k requires 0 <= k < |at| => at[k] + 1);
    assert forall k | 0 <= k < |at| :: later[k] in later;
    later
  }

  /** A listing is parted into its directories and everything else, each in order and each entry once. */
  lemma {:induction false} PartitionPicks(entries: seq<Child>, dirs: bool)
    ensures exists at :: Picks(entries, dirs, at) && NamedAt(entries, at, Partition(entries, dirs))
  {
    hide Picks, NamedAt;
    if entries == [] {
      NothingPicked(dirs);
      assert Picks(entries, dirs, []) && NamedAt(entries, [], Partition(entries, dirs));
    } else {
      PartitionPicks(entries[1..], dirs);
      var at :| Picks(entries[1..], dirs, at) && NamedAt(entries[1..], at, Partition(entries[1..], dirs));
      PickOneMore(entries, dirs, at);
      NameOneMore(entries, dirs, at, Partition(entries[1..], dirs));
    }
  }

  lemma NothingPicked(dirs: bool)
    ensures Picks([], dirs, []) && NamedAt([], [], [])
  {
  }

  lemma NameOneMore(entries: seq<Child>, dirs: bool, at: seq<nat>, names: seq<string>)
    requires entries != [] && NamedAt(entries[1..], at, names)
    ensures NamedAt(entries, (if entries[0].dir.Some? == dirs then [0] else []) + Shifted(at),
                    (if entries[0].dir.Some? == dirs then [entries[0].name] else []) + names)
  {
    var later := Shifted(at);
    forall k | 0 <= k < |at| ensures later[k] < |entries| && entries[later[k]].name == names[k] {
      assert entries[later[k]] == entries[1..][at[k]];
    }
  }

  lemma PickOneMore(entries: seq<Child>, dirs: bool, at: seq<nat>)
    requires entries != [] && Picks(entries[1..], dirs, at)
    ensures Picks(entries, dirs, (if entries[0].dir.Some? == dirs then [0] else []) + Shifted(at))
  {
    var later := Shifted(at);
    forall i: nat ensures i in later <==> 0 < i < |entries| && entries[i].dir.Some? == dirs {
      if i > 0 { assert i - 1 in at <==> i in later; }
    }
  }

  /** A directory is let in unless its id names it and has been seen. */
  predicate Admits(ident: Ident, seen: set<Ident>) { !(Identifies(ident) && ident in seen) }

  function Noting(ident: Ident, seen: set<Ident>): set<Ident> { if Identifies(ident) then seen + {ident} else seen }

  /** Which directories one walk goes into. */
  class Descent {
    const follow: bool
    const known: bool
    var seen: set<Ident>

    constructor (follow: bool, known: bool)
      ensures seen == {} && this.follow == follow && this.known == known
    {
      this.follow, this.known, seen := follow, known, {};
    }

    /** Whether to descend into `c`; an id that identifies is noted, and let in once. */
    method Enters(c: Child) returns (yes: bool)
      requires c.dir.Some?
      modifies this
      ensures yes <==> Follows(c, follow, known) && Admits(c.dir.value, old(seen))
      ensures seen == if yes then Noting(c.dir.value, old(seen)) else old(seen)
    {
      if !follow && known && c.link { return false; }
      if Identifies(c.dir.value) {
        if c.dir.value in seen { return false; }
        seen := seen + {c.dir.value};
      }
      yes := true;
    }
  }

  /**
    What a finished part of a walk from `d` has done, starting with `was` seen: let
    each new id in once, all of them reachable, and finished every one of them.
   */
  ghost predicate Explored(g: Graph, follow: bool, known: bool, d: Ident, was: set<Ident>, now: set<Ident>,
                           entered: seq<Ident>)
  {
    && now == was + Elements(entered)
    && Distinct(entered) && Elements(entered) !! was
    && Elements(entered) <= AllDue(g, follow, known, d)
    && AllNext(g, follow, known, Elements(entered)) <= now
  }

  ghost function AllDue(g: Graph, follow: bool, known: bool, d: Ident): set<Ident>
  {
    set x | x in g && Due(g, follow, known, d, x)
  }

  ghost function AllNext(g: Graph, follow: bool, known: bool, s: set<Ident>): set<Ident>
  {
    set x, y | x in s && y in Next(g, follow, known, x) :: y
  }

  lemma AllNextAdds(g: Graph, follow: bool, known: bool, a: set<Ident>, b: set<Ident>)
    ensures AllNext(g, follow, known, a + b) == AllNext(g, follow, known, a) + AllNext(g, follow, known, b)
  {
  }

  lemma ElementsMore(entered: seq<Ident>, x: Ident, deeper: seq<Ident>)
    ensures Elements(entered + [x] + deeper) == Elements(entered) + ({x} + Elements(deeper))
  {
    assert forall y :: y in entered + [x] + deeper <==> y in entered || y == x || y in deeper;
  }

  lemma DistinctMore(entered: seq<Ident>, x: Ident, deeper: seq<Ident>)
    requires Distinct(entered) && Distinct(deeper) && x !in entered && Elements(deeper) !! Elements(entered) + {x}
    ensures Distinct(entered + [x] + deeper)
  {
    var all := entered + [x] + deeper;
    forall i, k | 0 <= i < k < |all| ensures all[i] != all[k] {
      if i < |entered| { assert all[i] in Elements(entered); }
      if k > |entered| { assert all[k] in Elements(deeper); }
    }
  }

  lemma SeenMore(was: set<Ident>, mid: set<Ident>, now: set<Ident>, e: set<Ident>, x: Ident, d: set<Ident>)
    requires mid == was + e && e !! was && x !in mid && now == mid + {x} + d && d !! mid + {x}
    ensures now == was + (e + ({x} + d)) && e + ({x} + d) !! was && d !! e + {x} && x !in e
  {
  }

  lemma NextMore(g: Graph, follow: bool, known: bool, e: set<Ident>, x: Ident, d: set<Ident>, now: set<Ident>)
    requires AllNext(g, follow, known, e) <= now && Next(g, follow, known, x) <= now
    requires AllNext(g, follow, known, d) <= now
    ensures AllNext(g, follow, known, e + ({x} + d)) <= now
  {
    assert AllNext(g, follow, known, {x}) == Next(g, follow, known, x);
    AllNextAdds(g, follow, known, e, {x} + d);
    AllNextAdds(g, follow, known, {x}, d);
  }

  /** One more child, entered and finished. */
  lemma ExploredMore(g: Graph, follow: bool, known: bool, d: Ident, was: set<Ident>, mid: set<Ident>, now: set<Ident>,
                     entered: seq<Ident>, x: Ident, deeper: seq<Ident>)
    requires Explored(g, follow, known, d, was, mid, entered) && x !in mid && x in g && x in Next(g, follow, known, d)
    requires Explored(g, follow, known, x, mid + {x}, now, deeper) && Next(g, follow, known, x) <= now
    ensures Explored(g, follow, known, d, was, now, entered + [x] + deeper)
    ensures Elements(entered + [x] + deeper) == Elements(entered) + ({x} + Elements(deeper))
  {
    var e, f := Elements(entered), Elements(deeper);
    assert x in entered ==> x in e;
    hide AllNext, AllDue, Distinct, Next, Elements;
    SeenMore(was, mid, now, e, x, f);
    Joined(g, follow, known, d, x);
    ElementsMore(entered, x, deeper);
    DistinctMore(entered, x, deeper);
    NextMore(g, follow, known, e, x, f, now);
  }

  /** Every visit describes the listing of the directory visited. */
  ghost predicate Describes(g: Graph, out: seq<Visit>)
  {
    forall v | v in out ::
      v.dirs == Partition(Entries(g, v.ident), true) && v.files == Partition(Entries(g, v.ident), false)
  }

  /** `way` leads from `d` to `x`, an entry of each directory after another. */
  ghost predicate Way(g: Graph, follow: bool, known: bool, d: Ident, way: seq<Child>, x: Ident)
    decreases |way|
  {
    if way == [] then d == x
    else
      && way[0] in Entries(g, d) && Follows(way[0], follow, known)
      && Way(g, follow, known, way[0].dir.value, way[1..], x)
  }

  ghost function PathBy(path: string, way: seq<Child>): string
    decreases |way|
  {
    if way == [] then path else PathBy(Join(path, way[0].name), way[1..])
  }

  /** The path given with a visit spells a way to the directory visited. */
  ghost predicate Placed(g: Graph, follow: bool, known: bool, d: Ident, path: string, v: Visit)
  {
    exists way: seq<Child> :: Way(g, follow, known, d, way, v.ident) && v.path == PathBy(path, way)
  }

  ghost predicate AllPlaced(g: Graph, follow: bool, known: bool, d: Ident, path: string, out: seq<Visit>)
  {
    forall v | v in out :: Placed(g, follow, known, d, path, v)
  }

  lemma PlacedHere(g: Graph, follow: bool, known: bool, d: Ident, path: string, v: Visit)
    requires v.ident == d && v.path == path
    ensures Placed(g, follow, known, d, path, v)
  {
    assert Way(g, follow, known, d, [], v.ident) && PathBy(path, []) == path;
  }

  lemma PlacedBelow(g: Graph, follow: bool, known: bool, d: Ident, path: string, c: Child, out: seq<Visit>)
    requires c in Entries(g, d) && Follows(c, follow, known)
    requires AllPlaced(g, follow, known, c.dir.value, Join(path, c.name), out)
    ensures AllPlaced(g, follow, known, d, path, out)
  {
    forall v | v in out ensures Placed(g, follow, known, d, path, v) {
      var way: seq<Child> :|
        Way(g, follow, known, c.dir.value, way, v.ident) && v.path == PathBy(Join(path, c.name), way);
      assert ([c] + way)[1..] == way;
      assert Way(g, follow, known, d, [c] + way, v.ident) && v.path == PathBy(path, [c] + way);
    }
  }

  lemma PlacedTogether(g: Graph, follow: bool, known: bool, d: Ident, path: string, a: seq<Visit>, b: seq<Visit>)
    requires AllPlaced(g, follow, known, d, path, a) && AllPlaced(g, follow, known, d, path, b)
    ensures AllPlaced(g, follow, known, d, path, a + b)
  {
    hide Placed;
  }

  /** A directory that can be listed is the first visit of its walk, or the last. */
  ghost predicate InPlace(g: Graph, d: Ident, path: string, topdown: bool, out: seq<Visit>)
  {
    d in g && g[d].Some? ==>
      && out != []
      && (if topdown then out[0] else out[|out| - 1])
         == Visit(path, d, Partition(Entries(g, d), true), Partition(Entries(g, d), false))
  }

  ghost function Visited(out: seq<Visit>): set<Ident> { set v | v in out :: v.ident }

  ghost predicate Listable(g: Graph) { forall d | d in g :: g[d].Some? }

  /**
    The walk from one directory. It ends on any finite graph whose ids identify:
    each descent uses up an id not seen before.
   */
  method From(g: Graph, w: Descent, path: string, d: Ident, topdown: bool)
    returns (out: seq<Visit>, ghost entered: seq<Ident>)
    requires Identified(g) && d in g
    modifies w
    ensures Explored(g, w.follow, w.known, d, old(w.seen), w.seen, entered) && Next(g, w.follow, w.known, d) <= w.seen
    ensures Describes(g, out)
    ensures AllPlaced(g, w.follow, w.known, d, path, out) && InPlace(g, d, path, topdown, out)
    ensures Listable(g) ==> Visited(out) == {d} + Elements(entered) && |out| == 1 + |entered|
    decreases |g.Keys - w.seen|, 2
  {
    out, entered := [], [];
    if g[d].None? { return; }
    var here := Visit(path, d, Partition(Entries(g, d), true), Partition(Entries(g, d), false));
    var below;
    below, entered := Children(g, w, path, d, topdown);
    PlacedHere(g, w.follow, w.known, d, path, here);
    PlacedTogether(g, w.follow, w.known, d, path, [here], below);
    PlacedTogether(g, w.follow, w.known, d, path, below, [here]);
    out := if topdown then [here] + below else below + [here];
  }

  /** The first `n` entries have been dealt with. */
  ghost predicate Through(entries: seq<Child>, n: nat, follow: bool, known: bool, seen: set<Ident>)
  {
    forall i | 0 <= i < n && i < |entries| :: Follows(entries[i], follow, known) ==> entries[i].dir.value in seen
  }

  /** The visits are of those directories, one each, as far as they can be listed. */
  ghost predicate Reports(g: Graph, out: seq<Visit>, entered: seq<Ident>)
  {
    Describes(g, out) && (Listable(g) ==> Visited(out) == Elements(entered) && |out| == |entered|)
  }

  lemma ReportsMore(g: Graph, out: seq<Visit>, entered: seq<Ident>, more: seq<Visit>, all: seq<Ident>)
    requires Reports(g, out, entered) && Describes(g, more)
    requires Listable(g) ==> Elements(all) == Elements(entered) + Visited(more) && |all| == |entered| + |more|
    ensures Reports(g, out + more, all)
  {
    VisitsJoin(out, more);
  }

  lemma ThroughCovers(g: Graph, follow: bool, known: bool, d: Ident, seen: set<Ident>)
    requires Through(Entries(g, d), |Entries(g, d)|, follow, known, seen)
    ensures Next(g, follow, known, d) <= seen
  {
  }

  lemma NothingYet(g: Graph, follow: bool, known: bool, d: Ident, was: set<Ident>)
    ensures Explored(g, follow, known, d, was, was, []) && Reports(g, [], [])
  {
    assert Elements([]) == {} && AllNext(g, follow, known, {}) == {};
  }

  /** Descend into the entries of a directory, in listing order. */
  method Children(g: Graph, w: Descent, path: string, d: Ident, topdown: bool)
    returns (out: seq<Visit>, ghost entered: seq<Ident>)
    requires Identified(g) && d in g && g[d].Some?
    modifies w
    ensures Explored(g, w.follow, w.known, d, old(w.seen), w.seen, entered) && Next(g, w.follow, w.known, d) <= w.seen
    ensures Reports(g, out, entered) && AllPlaced(g, w.follow, w.known, d, path, out)
    decreases |g.Keys - w.seen|, 1
  {
    out, entered := [], [];
    NothingYet(g, w.follow, w.known, d, w.seen);
    ghost var was := w.seen;
    var entries := Entries(g, d);
    var n := 0;
    while n < |entries|
      invariant n <= |entries|
      invariant Explored(g, w.follow, w.known, d, was, w.seen, entered) && was <= w.seen
      invariant Through(entries, n, w.follow, w.known, w.seen)
      invariant Reports(g, out, entered) && AllPlaced(g, w.follow, w.known, d, path, out)
    {
      FewerLeft(g.Keys, was, w.seen);
      ghost var mid := w.seen;
      var more;
      ghost var all;
      more, all := Descend(g, w, path, d, entries[n], topdown, was, entered);
      ReportsMore(g, out, entered, more, all);
      PlacedTogether(g, w.follow, w.known, d, path, out, more);
      ThroughOne(entries, n, w.follow, w.known, mid, w.seen);
      out, entered, n := out + more, all, n + 1;
    }
    ThroughCovers(g, w.follow, w.known, d, w.seen);
  }

  lemma ThroughOne(entries: seq<Child>, n: nat, follow: bool, known: bool, was: set<Ident>, now: set<Ident>)
    requires n < |entries| && Through(entries, n, follow, known, was) && was <= now
    requires Follows(entries[n], follow, known) ==> entries[n].dir.value in now
    ensures Through(entries, n + 1, follow, known, now)
  {
  }

  /** One entry of a listing: entered and walked if it is a directory and the descent lets it in. */
  method Descend(g: Graph, w: Descent, path: string, d: Ident, c: Child, topdown: bool,
                 ghost was: set<Ident>, ghost entered: seq<Ident>)
    returns (more: seq<Visit>, ghost all: seq<Ident>)
    requires Identified(g) && d in g && c in Entries(g, d)
    requires Explored(g, w.follow, w.known, d, was, w.seen, entered)
    modifies w
    ensures Explored(g, w.follow, w.known, d, was, w.seen, all) && old(w.seen) <= w.seen
    ensures Follows(c, w.follow, w.known) ==> c.dir.value in w.seen
    ensures Describes(g, more) && AllPlaced(g, w.follow, w.known, d, path, more)
    ensures Listable(g) ==> Elements(all) == Elements(entered) + Visited(more) && |all| == |entered| + |more|
    decreases |g.Keys - w.seen|, 0
  {
    hide Placed, InPlace, AllDue, AllNext, Partition;
    more, all := [], entered;
    if c.dir.None? { return; }
    ghost var mid := w.seen;
    var yes := w.Enters(c);
    if yes {
      var x := c.dir.value;
      assert x in Next(g, w.follow, w.known, d);
      Fewer(g.Keys, mid, mid, x);
      ghost var deeper;
      more, deeper := From(g, w, Join(path, c.name), x, topdown);
      ExploredMore(g, w.follow, w.known, d, was, mid, w.seen, entered, x, deeper);
      PlacedBelow(g, w.follow, w.known, d, path, c, more);
      all := entered + [x] + deeper;
    }
  }

  lemma FewerLeft(all: set<Ident>, was: set<Ident>, now: set<Ident>)
    requires was <= now
    ensures |all - now| <= |all - was|
  {
    SubsetSize(all - now, all - was);
  }

  lemma VisitsJoin(a: seq<Visit>, b: seq<Visit>)
    ensures Visited(a + b) == Visited(a) + Visited(b)
    ensures forall v :: v in a + b <==> v in a || v in b
  {
  }

  lemma Fewer(all: set<Ident>, seen: set<Ident>, now: set<Ident>, x: Ident)
    requires seen <= now && x in all && x !in now
    ensures |all - (now + {x})| < |all - seen|
  {
    assert all - (now + {x}) <= (all - seen) - {x};
    SubsetSize(all - (now + {x}), (all - seen) - {x});
  }

  lemma Joined(g: Graph, follow: bool, known: bool, d: Ident, x: Ident)
    requires x in Next(g, follow, known, d) && x in g
    ensures {x} + AllDue(g, follow, known, x) <= AllDue(g, follow, known, d)
  {
    forall s: set<Ident>, y | Closed(g, follow, known, d, s) && (y == x || Due(g, follow, known, x, y))
      ensures y in s
    {
      assert Closed(g, follow, known, x, s);
    }
  }

  /**
    A whole walk: it terminates, lets each id in at most once, and enters exactly
    the directories that can be reached from the top.
   */
  method Whole(g: Graph, top: Ident, path: string, topdown: bool, followLinks: bool, linksKnown: bool)
    returns (out: seq<Visit>, ghost entered: seq<Ident>)
    requires Identified(g) && top in g
    ensures Distinct(entered)
    ensures forall x :: x in entered <==> Reaches(g, followLinks, linksKnown, top, x)
    ensures Describes(g, out) && InPlace(g, top, path, topdown, out)
    ensures AllPlaced(g, followLinks, linksKnown, top, path, out)
    ensures Listable(g) ==> Visited(out) == {top} + Elements(entered) && |out| == 1 + |entered|
  {
    var w := new Descent(followLinks, linksKnown);
    out, entered := From(g, w, path, top, topdown);
    assert Closed(g, followLinks, linksKnown, top, w.seen) by {
      assert forall x | x in w.seen ::
          Next(g, followLinks, linksKnown, x) <= AllNext(g, followLinks, linksKnown, Elements(entered));
    }
    assert forall x | Due(g, followLinks, linksKnown, top, x) :: x in entered;
    assert forall x | x in entered :: x in AllDue(g, followLinks, linksKnown, top);
    forall x ensures x in entered <==> Reaches(g, followLinks, linksKnown, top, x) {
      DueIsReachable(g, followLinks, linksKnown, top, x);
    }
  }
}
