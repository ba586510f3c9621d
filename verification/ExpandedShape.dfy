// The expansion of a selection set over a graph, and the plain rewriting of an expansion: what rewriting the graph in
// place ought to come to.
module ExpandedShape {
  import opened SyntaxNodes
  import opened RemovedPaths
  import opened SharedGraph

  /** A selection set with everything below it, spreads followed. */
  datatype Expansion = Done | Sel(s: Selection, sub: Expansion, rest: Expansion)

  ghost predicate Expands(g: Graph, sels: seq<Selection>, h: Expansion)
    decreases h
  {
    match h
    case Done => sels == []
    case Sel(s, sub, rest) =>
      sels != [] && sels[0] == s && s in g && Expands(g, g[s], sub) && Expands(g, sels[1..], rest)
  }

  ghost function Members(h: Expansion): set<Selection> {
    match h
    case Done => {}
    case Sel(s, sub, rest) => {s} + Members(sub) + Members(rest)
  }

  lemma MembersFirst(h: Expansion)
    requires h.Sel?
    ensures Members(h) == Members(Sel(h.s, h.sub, Done)) + Members(h.rest)
  {
  }

  /** No node occurs twice. */
  ghost predicate NoRepeats(h: Expansion) {
    match h
    case Done => true
    case Sel(s, sub, rest) =>
      s !in Members(sub) && s !in Members(rest) && Members(sub) !! Members(rest) && NoRepeats(sub) && NoRepeats(rest)
  }

  ghost function Concat(a: Expansion, b: Expansion): Expansion {
    match a
    case Done => b
    case Sel(s, sub, rest) => Sel(s, sub, Concat(rest, b))
  }

  /** The plain rewriting: removed paths go, what lost all its selections goes, spreads are replaced by
      what they stand for. */
  ghost function Rewritten(h: Expansion, parent: Path, removed: set<string>): Expansion {
    match h
    case Done => Done
    case Sel(s, sub, rest) => Concat(RewrittenOne(s, sub, parent, removed), Rewritten(rest, parent, removed))
  }

  ghost function RewrittenOne(s: Selection, sub: Expansion, parent: Path, removed: set<string>): Expansion
    decreases sub
  {
    match s
    case FieldSelection(n) =>
      var path := parent + [n.name];
      if ShouldRemove(path, removed) then Done
      else if sub.Done? then Sel(s, Done, Done)
      else
        var sub' := Rewritten(sub, path, removed);
        if sub'.Done? then Done else Sel(s, sub', Done)
    case InlineSelection(n) =>
      var sub' := Rewritten(sub, parent, removed);
      if sub'.Done? then Done else Sel(s, sub', Done)
    case SpreadSelection(n) => Rewritten(sub, parent, removed)
  }

  // ------------------------------------------------------------------ leaf paths

  function Prefixed(name: string, paths: seq<Path>): (r: seq<Path>)
    ensures |r| == |paths|
  {
    if paths == [] then [] else [[name] + paths[0]] + Prefixed(name, paths[1..])
  }

  /** The paths of the fields without selections, in order. */
  function Leaves(h: Expansion): seq<Path> {
    match h
    case Done => []
    case Sel(s, sub, rest) =>
      (match s
       case FieldSelection(n) => if sub.Done? then [[n.name]] else Prefixed(n.name, Leaves(sub))
       case _ => Leaves(sub)) + Leaves(rest)
  }

  /** Some part of the path, from the top, is removed. */
  predicate Lost(parent: Path, path: Path, removed: set<string>)
    decreases |path|
  {
    path != [] && (ShouldRemove(parent + [path[0]], removed) || Lost(parent + [path[0]], path[1..], removed))
  }

  function Keep(parent: Path, paths: seq<Path>, removed: set<string>): seq<Path> {
    if paths == [] then []
    else (if Lost(parent, paths[0], removed) then [] else [paths[0]]) + Keep(parent, paths[1..], removed)
  }

  lemma Associative<T>(a: seq<T>, b: seq<T>, c: seq<T>)
    ensures a + (b + c) == (a + b) + c
  {
  }

  lemma FrontAndLast<T>(a: seq<T>)
    requires a != []
    ensures a == a[..|a| - 1] + [a[|a| - 1]]
  {
  }

  lemma HeadAndTail<T>(a: seq<T>)
    requires a != []
    ensures a == [a[0]] + a[1..]
  {
  }

  lemma IndexIn<T>(a: seq<T>, x: T) returns (i: nat)
    requires x in a
    ensures i < |a| && a[i] == x
  {
    i :| i < |a| && a[i] == x;
  }

  lemma KeepFirst(parent: Path, path: Path, rest: seq<Path>, removed: set<string>)
    ensures Keep(parent, [path] + rest, removed)
      == (if Lost(parent, path, removed) then [] else [path]) + Keep(parent, rest, removed)
  {
    assert ([path] + rest)[1..] == rest;
  }

  lemma {:induction false} KeepAppend(parent: Path, a: seq<Path>, b: seq<Path>, removed: set<string>)
    ensures Keep(parent, a + b, removed) == Keep(parent, a, removed) + Keep(parent, b, removed)
  {
    if a == [] {
      assert a + b == b;
    } else {
      var path, rest := a[0], a[1..];
      KeepAppend(parent, rest, b, removed);
      KeepFirst(parent, path, rest, removed);
      KeepFirst(parent, path, rest + b, removed);
      assert [path] + rest == a;
      Associative([path], rest, b);
      Associative(if Lost(parent, path, removed) then [] else [path], Keep(parent, rest, removed),
          Keep(parent, b, removed));
    }
  }

  lemma PrefixedFirst(name: string, path: Path, rest: seq<Path>)
    ensures Prefixed(name, [path] + rest) == [[name] + path] + Prefixed(name, rest)
  {
    assert ([path] + rest)[1..] == rest;
  }

  lemma {:induction false} PrefixedAppend(name: string, a: seq<Path>, b: seq<Path>)
    ensures Prefixed(name, a + b) == Prefixed(name, a) + Prefixed(name, b)
  {
    if a == [] {
      assert a + b == b;
    } else {
      var path, rest := a[0], a[1..];
      PrefixedAppend(name, rest, b);
      PrefixedFirst(name, path, rest);
      PrefixedFirst(name, path, rest + b);
      assert [path] + rest == a;
      Associative([path], rest, b);
      Associative([[name] + path], Prefixed(name, rest), Prefixed(name, b));
    }
  }

  /** Below a field that is removed nothing is kept. */
  lemma {:induction false} KeepBelowRemoved(parent: Path, name: string, paths: seq<Path>, removed: set<string>)
    requires ShouldRemove(parent + [name], removed)
    ensures Keep(parent, Prefixed(name, paths), removed) == []
  {
    if paths == [] {
    } else {
      KeepBelowRemoved(parent, name, paths[1..], removed);
      assert ([name] + paths[0])[0] == name;
      assert Prefixed(name, paths)[1..] == Prefixed(name, paths[1..]);
    }
  }

  lemma {:induction false} KeepBelow(parent: Path, name: string, paths: seq<Path>, removed: set<string>)
    requires !ShouldRemove(parent + [name], removed)
    ensures Keep(parent, Prefixed(name, paths), removed) == Prefixed(name, Keep(parent + [name], paths, removed))
  {
    if paths == [] {
    } else {
      KeepBelow(parent, name, paths[1..], removed);
      assert ([name] + paths[0])[0] == name && ([name] + paths[0])[1..] == paths[0];
      assert Prefixed(name, paths)[1..] == Prefixed(name, paths[1..]);
      var rest := Keep(parent + [name], paths[1..], removed);
      assert Lost(parent, [name] + paths[0], removed) == Lost(parent + [name], paths[0], removed);
      if Lost(parent + [name], paths[0], removed) {
        assert Keep(parent + [name], paths, removed) == rest;
      } else {
        assert Keep(parent + [name], paths, removed) == [paths[0]] + rest;
        assert ([paths[0]] + rest)[1..] == rest;
      }
    }
  }

  lemma LeavesFirst(h: Expansion)
    requires h.Sel?
    ensures Leaves(h) == Leaves(Sel(h.s, h.sub, Done)) + Leaves(h.rest)
  {
  }

  lemma {:induction false} LeavesConcat(a: Expansion, b: Expansion)
    ensures Leaves(Concat(a, b)) == Leaves(a) + Leaves(b)
  {
    if a.Sel? {
      LeavesConcat(a.rest, b);
    }
  }

  lemma {:induction false} RewrittenLeavesNothingEmpty(h: Expansion, parent: Path, removed: set<string>)
    ensures Leaves(Rewritten(h, parent, removed)) == [] <==> Rewritten(h, parent, removed).Done?
  {
    if h.Sel? {
      var one, rest := RewrittenOne(h.s, h.sub, parent, removed), Rewritten(h.rest, parent, removed);
      RewrittenLeavesNothingEmpty(h.rest, parent, removed);
      match h.s {
        case FieldSelection(n) => RewrittenLeavesNothingEmpty(h.sub, parent + [n.name], removed);
        case _ => RewrittenLeavesNothingEmpty(h.sub, parent, removed);
      }
      LeavesConcat(one, rest);
    }
  }

  /** Main lemma: the leaf paths left are, in order, the leaf paths with no removed part. */
  lemma {:induction false} RewrittenKeeps(h: Expansion, parent: Path, removed: set<string>)
    ensures Leaves(Rewritten(h, parent, removed)) == Keep(parent, Leaves(h), removed)
    decreases h, 1
  {
    if h.Sel? {
      RewrittenOneKeeps(h.s, h.sub, parent, removed);
      RewrittenKeeps(h.rest, parent, removed);
      LeavesConcat(RewrittenOne(h.s, h.sub, parent, removed), Rewritten(h.rest, parent, removed));
      var one := Sel(h.s, h.sub, Done);
      assert Leaves(h) == Leaves(one) + Leaves(h.rest);
      KeepAppend(parent, Leaves(one), Leaves(h.rest), removed);
    }
  }

  lemma {:induction false} RewrittenOneKeeps(s: Selection, sub: Expansion, parent: Path, removed: set<string>)
    ensures Leaves(RewrittenOne(s, sub, parent, removed)) == Keep(parent, Leaves(Sel(s, sub, Done)), removed)
    decreases sub, 2
  {
    match s {
      case FieldSelection(n) =>
        var path := parent + [n.name];
        if sub.Done? {
          assert [[n.name]][1..] == [];
          assert Lost(parent, [n.name], removed) == ShouldRemove(path, removed);
        } else if ShouldRemove(path, removed) {
          KeepBelowRemoved(parent, n.name, Leaves(sub), removed);
          assert Leaves(Sel(s, sub, Done)) == Prefixed(n.name, Leaves(sub));
        } else {
          RewrittenKeeps(sub, path, removed);
          RewrittenLeavesNothingEmpty(sub, path, removed);
          KeepBelow(parent, n.name, Leaves(sub), removed);
          assert Leaves(Sel(s, sub, Done)) == Prefixed(n.name, Leaves(sub));
        }
      case _ =>
        RewrittenKeeps(sub, parent, removed);
        RewrittenLeavesNothingEmpty(sub, parent, removed);
        assert Leaves(Sel(s, sub, Done)) == Leaves(sub);
    }
  }

  // ------------------------------------------------------------------ expansions over changing graphs

  ghost predicate Untouched(g: Graph, g': Graph, members: set<Selection>) {
    forall s <- g :: s !in members ==> s in g' && g'[s] == g[s]
  }

  lemma {:induction false} ExpandsStays(g: Graph, g': Graph, members: set<Selection>, sels: seq<Selection>,
      h: Expansion)
    requires Untouched(g, g', members) && Expands(g, sels, h) && members !! Members(h)
    ensures Expands(g', sels, h)
    decreases h
  {
    if h.Sel? {
      ExpandsStays(g, g', members, g[h.s], h.sub);
      ExpandsStays(g, g', members, sels[1..], h.rest);
    }
  }

  lemma {:induction false} ExpandsConcat(g: Graph, a: seq<Selection>, h: Expansion, b: seq<Selection>, i: Expansion)
    requires Expands(g, a, h) && Expands(g, b, i)
    ensures Expands(g, a + b, Concat(h, i))
  {
    if a == [] {
      assert a + b == b;
    } else {
      ExpandsConcat(g, a[1..], h.rest, b, i);
      assert (a + b)[1..] == a[1..] + b;
    }
  }

  lemma {:induction false} MembersConcat(a: Expansion, b: Expansion)
    ensures Members(Concat(a, b)) == Members(a) + Members(b)
  {
    if a.Sel? {
      MembersConcat(a.rest, b);
    }
  }

  lemma {:induction false} ConcatAssociative(a: Expansion, b: Expansion, c: Expansion)
    ensures Concat(Concat(a, b), c) == Concat(a, Concat(b, c))
  {
    if a.Sel? {
      ConcatAssociative(a.rest, b, c);
    }
  }

  lemma {:induction false} ConcatDone(a: Expansion)
    ensures Concat(a, Done) == a
  {
    if a.Sel? {
      ConcatDone(a.rest);
    }
  }

  lemma {:induction false} RewrittenConcat(a: Expansion, b: Expansion, parent: Path, removed: set<string>)
    ensures Rewritten(Concat(a, b), parent, removed)
      == Concat(Rewritten(a, parent, removed), Rewritten(b, parent, removed))
  {
    if a.Sel? {
      RewrittenConcat(a.rest, b, parent, removed);
      ConcatAssociative(RewrittenOne(a.s, a.sub, parent, removed), Rewritten(a.rest, parent, removed),
          Rewritten(b, parent, removed));
    }
  }

  /** Rewriting brings in no new nodes. */
  lemma {:induction false} RewrittenMembers(h: Expansion, parent: Path, removed: set<string>)
    ensures Members(Rewritten(h, parent, removed)) <= Members(h)
  {
    if h.Sel? {
      RewrittenMembers(h.rest, parent, removed);
      match h.s {
        case FieldSelection(n) => RewrittenMembers(h.sub, parent + [n.name], removed);
        case _ => RewrittenMembers(h.sub, parent, removed);
      }
      MembersConcat(RewrittenOne(h.s, h.sub, parent, removed), Rewritten(h.rest, parent, removed));
    }
  }

  /** An expansion is determined by the graph, and exists because the graph has no cycle. */
  lemma {:induction false} ExpansionUnique(g: Graph, sels: seq<Selection>, h: Expansion, i: Expansion)
    requires Expands(g, sels, h) && Expands(g, sels, i)
    ensures h == i
    decreases h
  {
    if h.Sel? {
      ExpansionUnique(g, g[h.s], h.sub, i.sub);
      ExpansionUnique(g, sels[1..], h.rest, i.rest);
    }
  }

  ghost function ExpansionOf(rank: Ranks, g: Graph, sels: seq<Selection>, bound: nat): (h: Expansion)
    requires Wired(rank, g) && Below(rank, sels, bound)
    ensures Expands(g, sels, h)
    decreases bound, |sels|
  {
    if sels == [] then Done
    else
      assert sels[0] in sels;
      Sel(sels[0], ExpansionOf(rank, g, g[sels[0]], rank[sels[0]]), ExpansionOf(rank, g, sels[1..], bound))
  }

  /** What is below a selection. */
  ghost function Subtree(rank: Ranks, g: Graph, s: Selection): (h: Expansion)
    requires Wired(rank, g) && s in g
    ensures Expands(g, g[s], h)
  {
    ExpansionOf(rank, g, g[s], rank[s])
  }

  /** Selections below a bound, and all that is below them, are below the bound. */
  lemma {:induction false} MembersBelow(g: Graph, rank: Ranks, sels: seq<Selection>, h: Expansion, bound: nat)
    requires Wired(rank, g) && Below(rank, sels, bound) && Expands(g, sels, h)
    ensures forall m <- Members(h) :: m in rank && rank[m] < bound
    decreases h
  {
    if h.Sel? {
      assert h.s in sels;
      MembersBelow(g, rank, g[h.s], h.sub, rank[h.s]);
      MembersBelow(g, rank, sels[1..], h.rest, bound);
    }
  }

  /** A member of an expansion stands at the top or below another member. */
  lemma {:induction false} MemberStands(g: Graph, sels: seq<Selection>, h: Expansion, m: Selection)
    requires Expands(g, sels, h) && m in Members(h)
    ensures m in sels || exists p :: p in Members(h) && p in g && m in g[p]
    decreases h
  {
    if m == h.s {
    } else if m in Members(h.sub) {
      MemberStands(g, g[h.s], h.sub, m);
      if m in g[h.s] {
        assert h.s in Members(h);
      }
    } else {
      MemberStands(g, sels[1..], h.rest, m);
    }
  }

  /** Expansions of the operations that have no node in common. */
  ghost predicate Separated(g: Graph, operations: seq<seq<Selection>>, hs: seq<Expansion>) {
    && |hs| == |operations|
    && (forall i | 0 <= i < |hs| :: Expands(g, operations[i], hs[i]) && NoRepeats(hs[i]))
    && (forall i, j | 0 <= i < j < |hs| :: Members(hs[i]) !! Members(hs[j]))
  }

  ghost predicate NoSpreads(h: Expansion) {
    match h
    case Done => true
    case Sel(s, sub, rest) => !s.SpreadSelection? && NoSpreads(sub) && NoSpreads(rest)
  }

  lemma {:induction false} NoSpreadsConcat(a: Expansion, b: Expansion)
    requires NoSpreads(a) && NoSpreads(b)
    ensures NoSpreads(Concat(a, b))
  {
    if a.Sel? {
      NoSpreadsConcat(a.rest, b);
    }
  }

  /** The plain rewriting inlines every spread. */
  lemma {:induction false} RewrittenHasNoSpreads(h: Expansion, parent: Path, removed: set<string>)
    ensures NoSpreads(Rewritten(h, parent, removed))
  {
    if h.Sel? {
      RewrittenHasNoSpreads(h.rest, parent, removed);
      match h.s {
        case FieldSelection(n) => RewrittenHasNoSpreads(h.sub, parent + [n.name], removed);
        case _ => RewrittenHasNoSpreads(h.sub, parent, removed);
      }
      NoSpreadsConcat(RewrittenOne(h.s, h.sub, parent, removed), Rewritten(h.rest, parent, removed));
    }
  }

  // ------------------------------------------------------------------ paths of graphs

  lemma {:induction false} LostExactly(parent: Path, path: Path, removed: set<string>)
    ensures Lost(parent, path, removed) <==> exists m | 0 < m <= |path| :: ShouldRemove(parent + path[..m], removed)
    decreases |path|
  {
    if path != [] {
      LostExactly(parent + [path[0]], path[1..], removed);
      forall m | 0 < m < |path|
        ensures parent + [path[0]] + path[1..][..m] == parent + path[..m + 1]
      {
      }
      assert path[..1] == [path[0]];
      if Lost(parent, path, removed) && !ShouldRemove(parent + [path[0]], removed) {
        var m :| 0 < m <= |path[1..]| && ShouldRemove(parent + [path[0]] + path[1..][..m], removed);
        assert ShouldRemove(parent + path[..m + 1], removed);
      }
      if m :| 0 < m <= |path| && ShouldRemove(parent + path[..m], removed) && m > 1 {
        assert parent + [path[0]] + path[1..][..m - 1] == parent + path[..m];
      }
    }
  }

  lemma {:induction false} PrefixReached(k: nat, g: Graph, s: Selection, path: Path, m: nat)
    requires Reaches(k, g, s, path) && 0 < m <= |path|
    ensures Reaches(k, g, s, path[..m])
  {
    if s.FieldSelection? {
      if m > 1 {
        var t :| t in g[s] && Reaches(k - 1, g, t, path[1..]);
        PrefixReached(k - 1, g, t, path[1..], m - 1);
        assert path[1..][..m - 1] == path[..m][1..];
      }
    } else {
      var t :| t in g[s] && Reaches(k - 1, g, t, path);
      PrefixReached(k - 1, g, t, path, m);
    }
  }

  function Longer(name: string, paths: set<Path>): set<Path> {
    set p | p in paths :: [name] + p
  }

  lemma InLonger(name: string, paths: set<Path>, path: Path)
    ensures path in Longer(name, paths) <==> path != [] && path[0] == name && path[1..] in paths
  {
    if path != [] {
      assert path == [path[0]] + path[1..];
    }
  }

  /** The paths of all fields, those with selections as well. */
  function FieldPaths(h: Expansion): set<Path> {
    match h
    case Done => {}
    case Sel(s, sub, rest) =>
      FieldPaths(rest)
      + match s
        case FieldSelection(n) => {[n.name]} + Longer(n.name, FieldPaths(sub))
        case _ => FieldPaths(sub)
  }

  lemma ReachesOne(g: Graph, s: Selection, path: Path)
    ensures HasPath(g, [s], path) <==> exists k: nat :: Reaches(k, g, s, path)
  {
    if k: nat :| Reaches(k, g, s, path) {
      assert ReachesFrom(k, g, [s], path);
    }
    if k: nat :| ReachesFrom(k, g, [s], path) {
      assert Reaches(k, g, s, path);
    }
  }

  lemma ReachesBelow(g: Graph, s: Selection, path: Path)
    requires s in g
    ensures s.FieldSelection? ==> (HasPath(g, [s], path) <==>
        path != [] && path[0] == s.field.name && (|path| == 1 || HasPath(g, g[s], path[1..])))
    ensures !s.FieldSelection? ==> (HasPath(g, [s], path) <==> HasPath(g, g[s], path))
  {
    ReachesOne(g, s, path);
    var inner := if s.FieldSelection? && path != [] then path[1..] else path;
    if k: nat :| Reaches(k, g, s, path) {
      assert (|path| == 1 && s.FieldSelection?) || ReachesFrom(k - 1, g, g[s], inner);
    }
    if k: nat :| ReachesFrom(k, g, g[s], inner) {
      assert s.FieldSelection? ==> path == [] || path[0] != s.field.name || Reaches(k + 1, g, s, path);
      assert !s.FieldSelection? ==> Reaches(k + 1, g, s, path);
    }
    if s.FieldSelection? && |path| == 1 && path[0] == s.field.name {
      assert Reaches(1, g, s, path);
    }
  }

  lemma FieldPathsBelow(s: Selection, sub: Expansion, path: Path)
    ensures s.FieldSelection? ==> (path in FieldPaths(Sel(s, sub, Done)) <==>
        path != [] && path[0] == s.field.name && (|path| == 1 || path[1..] in FieldPaths(sub)))
    ensures !s.FieldSelection? ==> (path in FieldPaths(Sel(s, sub, Done)) <==> path in FieldPaths(sub))
  {
    if s.FieldSelection? {
      InLonger(s.field.name, FieldPaths(sub), path);
      assert |path| == 1 ==> path == [path[0]];
    }
  }

  lemma {:induction false} ReachesIff(g: Graph, s: Selection, sub: Expansion, path: Path)
    requires s in g && Expands(g, g[s], sub)
    ensures HasPath(g, [s], path) <==> path in FieldPaths(Sel(s, sub, Done))
    decreases sub, 1
  {
    HasPathIff(g, g[s], sub, if s.FieldSelection? && path != [] then path[1..] else path);
    ReachesBelow(g, s, path);
    FieldPathsBelow(s, sub, path);
  }

  /** A selection set's field paths are those of its expansion. */
  lemma {:induction false} HasPathIff(g: Graph, sels: seq<Selection>, h: Expansion, path: Path)
    requires Expands(g, sels, h)
    ensures HasPath(g, sels, path) <==> path in FieldPaths(h)
    decreases h, 0
  {
    if h.Sel? {
      HasPathIff(g, sels[1..], h.rest, path);
      ReachesIff(g, h.s, h.sub, path);
      HeadAndTail(sels);
      if k: nat :| ReachesFrom(k, g, sels, path) {
        assert ReachesFrom(k, g, [sels[0]], path) || ReachesFrom(k, g, sels[1..], path);
      }
      if k: nat :| ReachesFrom(k, g, [sels[0]], path) {
        assert ReachesFrom(k, g, sels, path);
      }
      if k: nat :| ReachesFrom(k, g, sels[1..], path) {
        assert ReachesFrom(k, g, sels, path);
      }
    }
  }

  lemma PathWasThere(g: Graph, g': Graph, rank: Ranks, bodies: Bodies, bound: nat, sels: seq<Selection>,
      sels': seq<Selection>, path: Path)
    requires Wired(rank, g) && Evolved(g, g', bodies) && Inlines(sels', sels, bodies) && Below(rank, sels, bound)
    requires HasPath(g', sels', path)
    ensures HasPath(g, sels, path)
  {
    var k: nat :| ReachesFrom(k, g', sels', path);
    var t :| t in sels' && Reaches(k, g', t, path);
    var n := PathsShrink(k, g, g', rank, bodies, t, path);
    var l: nat :| From(l, t, sels, bodies);
    var m := ReachesThrough(l, t, sels, n, g, bodies, path);
  }

  lemma SparedIsNotLost(g: Graph, sels: seq<Selection>, parent: Path, removed: set<string>, path: Path)
    requires Spared(g, sels, parent, removed) && HasPath(g, sels, path)
    ensures !Lost(parent, path, removed)
  {
    LostExactly(parent, path, removed);
    var k: nat :| ReachesFrom(k, g, sels, path);
    var s :| s in sels && Reaches(k, g, s, path);
    forall m | 0 < m <= |path|
      ensures !ShouldRemove(parent + path[..m], removed)
    {
      PrefixReached(k, g, s, path, m);
    }
  }
}
