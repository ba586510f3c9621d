// Small queries that show what sharing nodes can do to a rewritten query, and what it cannot.
module SharingExamples {
  import opened Wrappers
  import opened SyntaxNodes
  import opened RemovedPaths
  import opened SharedGraph
  import opened ExpandedShape
  import opened PathRewriter
  import opened RewrittenQuery
  import opened SteadyRewriting
  import opened SteadyQuery

  lemma RewriteSingle(g: Graph, rank: Ranks, bound: nat, s: Selection, parent: Path, removed: set<string>)
    requires Wired(rank, g) && s in rank && rank[s] < bound
    ensures RewriteAll(g, rank, bound, [s], parent, removed) == RewriteOne(g, rank, bound, s, parent, removed)
  {
    var one := RewriteOne(g, rank, bound, s, parent, removed);
    assert [s][1..] == [];
    assert RewriteAll(one.graph, rank, bound, [], parent, removed) == Rewriting(one.graph, []);
    assert one.out + [] == one.out;
  }

  lemma RewriteTwo(g: Graph, rank: Ranks, bound: nat, s: Selection, t: Selection, parent: Path, removed: set<string>)
    requires Wired(rank, g) && s in rank && t in rank && rank[s] < bound && rank[t] < bound
    ensures var one := RewriteOne(g, rank, bound, s, parent, removed);
      var two := RewriteOne(one.graph, rank, bound, t, parent, removed);
      RewriteAll(g, rank, bound, [s, t], parent, removed) == Rewriting(two.graph, one.out + two.out)
  {
    var one := RewriteOne(g, rank, bound, s, parent, removed);
    RewriteSingle(one.graph, rank, bound, t, parent, removed);
    assert [s, t][1..] == [t];
  }

  lemma OneOperation(g: Graph, rank: Ranks, bound: nat, operation: seq<Selection>, removed: set<string>)
    requires Wired(rank, g) && Below(rank, operation, bound)
    ensures var r := RewriteAll(g, rank, bound, operation, [], removed);
      RewriteOperations(g, rank, bound, [operation], removed) == Query(r.graph, [r.out])
  {
    assert [operation][..0] == [];
    assert RewriteOperations(g, rank, bound, [], removed) == Query(g, []);
  }

  /** A field without selections that is not removed stays as it is. */
  lemma LeafStays(g: Graph, rank: Ranks, bound: nat, n: FieldNode, parent: Path, removed: set<string>)
    requires Wired(rank, g) && FieldSelection(n) in rank && rank[FieldSelection(n)] < bound
      && g[FieldSelection(n)] == []
    requires !ShouldRemove(parent + [n.name], removed)
    ensures RewriteOne(g, rank, bound, FieldSelection(n), parent, removed) == Rewriting(g, [FieldSelection(n)])
  {
  }

  // ------------------------------------------------------------------ a fragment spread twice

  /** { a { ...F } b { ...F } } fragment F { u { x } }. */
  ghost predicate SpreadTwice(g: Graph, rank: Ranks, a: FieldNode, b: FieldNode, first: SpreadNode, second: SpreadNode,
      u: FieldNode, x: FieldNode) {
    && a.name == "a" && b.name == "b" && u.name == "u" && x.name == "x" && first != second && Wired(rank, g)
    && FieldSelection(a) in g && g[FieldSelection(a)] == [SpreadSelection(first)]
    && FieldSelection(b) in g && g[FieldSelection(b)] == [SpreadSelection(second)]
    && SpreadSelection(first) in g && g[SpreadSelection(first)] == [FieldSelection(u)]
    && SpreadSelection(second) in g && g[SpreadSelection(second)] == [FieldSelection(u)]
    && FieldSelection(u) in g && g[FieldSelection(u)] == [FieldSelection(x)]
    && FieldSelection(x) in g && g[FieldSelection(x)] == []
  }

  /** The entries a.u.x, and perhaps b.u.x. */
  ghost predicate RemovesX(removed: set<string>) {
    "a.u.x" in removed && removed <= {"a.u.x", "b.u.x"}
  }

  lemma ShortIsNotRemoved(path: Path, removed: set<string>)
    requires RemovesX(removed) && |RemovedPaths.Join(path)| < 5
    ensures !ShouldRemove(path, removed)
  {
  }

  lemma JoinTwo(a: string, b: string)
    ensures [a] + [b] == [a, b] && RemovedPaths.Join([a, b]) == a + "." + b
  {
    assert [a, b][1..] == [b];
  }

  lemma JoinThree(a: string, b: string, c: string)
    ensures [a] + [b] + [c] == [a, b, c] && RemovedPaths.Join([a, b, c]) == a + "." + b + "." + c
  {
    assert [a, b, c][1..] == [b, c];
    JoinTwo(b, c);
    assert a + "." + (b + "." + c) == a + "." + b + "." + c;
  }

  /** Below the first spread of the fragment the field loses its only selection, for good. */
  lemma FirstSpread(g: Graph, rank: Ranks, bound: nat, s: Selection, u: FieldNode, x: FieldNode, removed: set<string>)
    requires Wired(rank, g) && s.SpreadSelection? && s in g && rank[s] < bound && g[s] == [FieldSelection(u)]
    requires u.name == "u" && x.name == "x" && FieldSelection(u) in g && g[FieldSelection(u)] == [FieldSelection(x)]
    requires FieldSelection(x) in g && RemovesX(removed)
    ensures RewriteAll(g, rank, bound, [s], ["a"], removed) == Rewriting(g[FieldSelection(u) := []], [])
  {
    var U, X := FieldSelection(u), FieldSelection(x);
    assert U in g[s] && X in g[U];
    JoinThree("a", "u", "x");
    assert "a" + "." + "u" + "." + "x" == "a.u.x";
    JoinTwo("a", "u");
    ShortIsNotRemoved(["a"] + ["u"], removed);
    RewriteSingle(g, rank, rank[U], X, ["a"] + ["u"], removed);
    RewriteSingle(g, rank, rank[s], U, ["a"], removed);
    RewriteSingle(g, rank, bound, s, ["a"], removed);
  }

  /** Below the other spread the field, now without selections, passes for a leaf. */
  lemma SecondSpread(g: Graph, rank: Ranks, bound: nat, t: Selection, u: FieldNode, removed: set<string>)
    requires Wired(rank, g) && t.SpreadSelection? && t in g && rank[t] < bound && g[t] == [FieldSelection(u)]
    requires u.name == "u" && FieldSelection(u) in g && g[FieldSelection(u)] == [] && RemovesX(removed)
    ensures RewriteAll(g, rank, bound, [t], ["b"], removed) == Rewriting(g, [FieldSelection(u)])
  {
    var U := FieldSelection(u);
    assert U in g[t];
    JoinTwo("b", "u");
    ShortIsNotRemoved(["b"] + ["u"], removed);
    LeafStays(g, rank, rank[t], u, ["b"], removed);
    RewriteSingle(g, rank, rank[t], U, ["b"], removed);
    RewriteSingle(g, rank, bound, t, ["b"], removed);
  }

  lemma FirstField(g: Graph, rank: Ranks, bound: nat, a: FieldNode, b: FieldNode, first: SpreadNode, second: SpreadNode,
      u: FieldNode, x: FieldNode, removed: set<string>)
    requires SpreadTwice(g, rank, a, b, first, second, u, x) && rank[FieldSelection(a)] < bound && RemovesX(removed)
    ensures RewriteOne(g, rank, bound, FieldSelection(a), [], removed)
      == Rewriting(g[FieldSelection(u) := []][FieldSelection(a) := []], [])
  {
    var A, S := FieldSelection(a), SpreadSelection(first);
    assert [] + ["a"] == ["a"] && RemovedPaths.Join(["a"]) == "a";
    assert S in g[A];
    ShortIsNotRemoved(["a"], removed);
    FirstSpread(g, rank, rank[A], S, u, x, removed);
  }

  lemma SecondField(g: Graph, rank: Ranks, bound: nat, b: FieldNode, second: SpreadNode, u: FieldNode,
      removed: set<string>)
    requires Wired(rank, g) && b.name == "b" && u.name == "u" && FieldSelection(b) in g
    requires rank[FieldSelection(b)] < bound && g[FieldSelection(b)] == [SpreadSelection(second)]
    requires SpreadSelection(second) in g && g[SpreadSelection(second)] == [FieldSelection(u)]
    requires FieldSelection(u) in g && g[FieldSelection(u)] == [] && RemovesX(removed)
    ensures RewriteOne(g, rank, bound, FieldSelection(b), [], removed)
      == Rewriting(g[FieldSelection(b) := [FieldSelection(u)]], [FieldSelection(b)])
  {
    var B, T := FieldSelection(b), SpreadSelection(second);
    assert [] + ["b"] == ["b"] && RemovedPaths.Join(["b"]) == "b";
    assert T in g[B];
    ShortIsNotRemoved(["b"], removed);
    SecondSpread(g, rank, rank[B], T, u, removed);
  }

  lemma BothFields(g: Graph, rank: Ranks, bound: nat, a: FieldNode, b: FieldNode, first: SpreadNode, second: SpreadNode,
      u: FieldNode, x: FieldNode, removed: set<string>)
    returns (r: Rewriting)
    requires SpreadTwice(g, rank, a, b, first, second, u, x) && RemovesX(removed)
    requires Below(rank, [FieldSelection(a), FieldSelection(b)], bound)
    ensures r == RewriteAll(g, rank, bound, [FieldSelection(a), FieldSelection(b)], [], removed)
    ensures r.out == [FieldSelection(b)] && FieldSelection(b) in r.graph && FieldSelection(u) in r.graph
    ensures r.graph[FieldSelection(b)] == [FieldSelection(u)] && r.graph[FieldSelection(u)] == []
  {
    var A, B := FieldSelection(a), FieldSelection(b);
    assert A in [A, B] && B in [A, B];
    RewriteTwo(g, rank, bound, A, B, [], removed);
    FirstField(g, rank, bound, a, b, first, second, u, x, removed);
    var one := RewriteOne(g, rank, bound, A, [], removed);
    SecondField(one.graph, rank, bound, b, second, u, removed);
    r := RewriteAll(g, rank, bound, [A, B], [], removed);
  }

  lemma ReachedBefore(g: Graph, rank: Ranks, a: FieldNode, b: FieldNode, first: SpreadNode, second: SpreadNode,
      u: FieldNode, x: FieldNode)
    requires SpreadTwice(g, rank, a, b, first, second, u, x)
    ensures HasPath(g, [FieldSelection(a), FieldSelection(b)], ["b", "u", "x"])
  {
    var B, U, X, T := FieldSelection(b), FieldSelection(u), FieldSelection(x), SpreadSelection(second);
    assert ["b", "u", "x"][1..] == ["u", "x"] && ["u", "x"][1..] == ["x"];
    assert Reaches(1, g, X, ["x"]);
    assert X in g[U] && Reaches(2, g, U, ["u", "x"]);
    assert U in g[T] && Reaches(3, g, T, ["u", "x"]);
    assert T in g[B] && Reaches(4, g, B, ["b", "u", "x"]);
    assert ReachesFrom(4, g, [FieldSelection(a), B], ["b", "u", "x"]);
  }

  lemma LeafEndsHere(k: nat, g: Graph, s: Selection, path: Path)
    requires s in g && g[s] == [] && |path| > 1
    ensures !Reaches(k, g, s, path)
  {
  }

  lemma NotReachedAfter(g: Graph, b: FieldNode, u: FieldNode, path: Path)
    requires FieldSelection(b) in g && g[FieldSelection(b)] == [FieldSelection(u)]
    requires FieldSelection(u) in g && g[FieldSelection(u)] == [] && |path| > 2
    ensures !HasPath(g, [FieldSelection(b)], path)
  {
    forall k: nat
      ensures !ReachesFrom(k, g, [FieldSelection(b)], path)
    {
      if k > 0 {
        LeafEndsHere(k - 1, g, FieldSelection(u), path[1..]);
      }
    }
  }

  lemma NotLost()
    ensures !Lost([], ["b", "u", "x"], {"a.u.x"})
  {
    LostExactly([], ["b", "u", "x"], {"a.u.x"});
    forall m | 0 < m <= 3
      ensures !ShouldRemove([] + ["b", "u", "x"][..m], {"a.u.x"})
    {
      assert RemovedPaths.Join([] + ["b", "u", "x"][..m])[0] == 'b';
    }
  }

  /** Removing a.u.x takes b.u.x away as well, though nothing removes that. */
  lemma SharingLosesPaths(g: Graph, rank: Ranks, bound: nat, a: FieldNode, b: FieldNode, first: SpreadNode,
      second: SpreadNode, u: FieldNode, x: FieldNode)
    requires SpreadTwice(g, rank, a, b, first, second, u, x)
    requires AllBelow(rank, [[FieldSelection(a), FieldSelection(b)]], bound)
    ensures var operation, path := [FieldSelection(a), FieldSelection(b)], ["b", "u", "x"];
      && HasPath(g, operation, path) && !Lost([], path, {"a.u.x"})
      && var q := RewriteOperations(g, rank, bound, [operation], {"a.u.x"}); !HasPath(q.graph, q.operations[0], path)
  {
    var operation := [FieldSelection(a), FieldSelection(b)];
    assert operation in [operation];
    ReachedBefore(g, rank, a, b, first, second, u, x);
    NotLost();
    OneOperation(g, rank, bound, operation, {"a.u.x"});
    var r := BothFields(g, rank, bound, a, b, first, second, u, x, {"a.u.x"});
    NotReachedAfter(r.graph, b, u, ["b", "u", "x"]);
  }

  /** Removing a.u.x and b.u.x ought to leave nothing at all. It leaves { b { u } }: the second spread finds u without
      selections and takes it for a leaf. */
  lemma SharingKeepsEmptied(g: Graph, rank: Ranks, bound: nat, a: FieldNode, b: FieldNode, first: SpreadNode,
      second: SpreadNode, u: FieldNode, x: FieldNode, h: Expansion)
    requires SpreadTwice(g, rank, a, b, first, second, u, x)
    requires AllBelow(rank, [[FieldSelection(a), FieldSelection(b)]], bound)
    requires Expands(g, [FieldSelection(a), FieldSelection(b)], h)
    ensures var removed := {"a.u.x", "b.u.x"};
      var q := RewriteOperations(g, rank, bound, [[FieldSelection(a), FieldSelection(b)]], removed);
      && Rewritten(h, [], removed).Done? && q.operations[0] == [FieldSelection(b)]
      && FieldSelection(b) in q.graph && q.graph[FieldSelection(b)] == [FieldSelection(u)]
      && FieldSelection(u) in q.graph && q.graph[FieldSelection(u)] == []
  {
    var operation, removed := [FieldSelection(a), FieldSelection(b)], {"a.u.x", "b.u.x"};
    assert operation in [operation];
    OneOperation(g, rank, bound, operation, removed);
    var r := BothFields(g, rank, bound, a, b, first, second, u, x, removed);
    var e := BothLose(g, a, b, first, second, u, x, removed);
    ExpansionUnique(g, operation, h, e);
  }

  lemma BothLose(g: Graph, a: FieldNode, b: FieldNode, first: SpreadNode, second: SpreadNode, u: FieldNode,
      x: FieldNode, removed: set<string>) returns (h: Expansion)
    requires exists rank :: SpreadTwice(g, rank, a, b, first, second, u, x)
    requires removed == {"a.u.x", "b.u.x"}
    ensures Expands(g, [FieldSelection(a), FieldSelection(b)], h) && Rewritten(h, [], removed).Done?
  {
    assert "a" + "." + "u" + "." + "x" == "a.u.x" && "b" + "." + "u" + "." + "x" == "b.u.x";
    var belowA := NothingIsLeft(g, a, first, u, x, removed);
    var belowB := NothingIsLeft(g, b, second, u, x, removed);
    h := Sel(FieldSelection(a), belowA, Sel(FieldSelection(b), belowB, Done));
    assert [FieldSelection(a), FieldSelection(b)][1..] == [FieldSelection(b)] && [FieldSelection(b)][1..] == [];
    assert Rewritten(h.rest, [], removed) == Done;
  }

  /** Of a or b with the fragment below it. */
  lemma NothingIsLeft(g: Graph, a: FieldNode, first: SpreadNode, u: FieldNode, x: FieldNode, removed: set<string>)
    returns (sub: Expansion)
    requires FieldSelection(a) in g && g[FieldSelection(a)] == [SpreadSelection(first)]
    requires SpreadSelection(first) in g && g[SpreadSelection(first)] == [FieldSelection(u)]
    requires FieldSelection(u) in g && g[FieldSelection(u)] == [FieldSelection(x)]
    requires FieldSelection(x) in g && g[FieldSelection(x)] == [] && u.name == "u" && x.name == "x"
    requires a.name + "." + "u" + "." + "x" in removed
    ensures Expands(g, g[FieldSelection(a)], sub)
    ensures RewrittenOne(FieldSelection(a), sub, [], removed).Done?
  {
    JoinThree(a.name, "u", "x");
    assert [] + [a.name] == [a.name];
    var belowU := Sel(FieldSelection(x), Done, Done);
    ExpandsAlone(g, FieldSelection(x), Done);
    ExpandsAlone(g, FieldSelection(u), belowU);
    sub := Sel(SpreadSelection(first), Sel(FieldSelection(u), belowU, Done), Done);
    ExpandsAlone(g, SpreadSelection(first), Sel(FieldSelection(u), belowU, Done));
    assert Rewritten(belowU, [a.name] + ["u"], removed) == Done;
    assert Rewritten(sub.sub, [a.name], removed) == Done;
    assert Rewritten(sub, [a.name], removed) == Done;
  }

  /** Such a query exists. */
  lemma SpreadTwiceExists(a: FieldNode, b: FieldNode, first: SpreadNode, second: SpreadNode, u: FieldNode, x: FieldNode)
    requires a.name == "a" && b.name == "b" && u.name == "u" && x.name == "x" && first != second
    ensures exists g, rank :: SpreadTwice(g, rank, a, b, first, second, u, x)
  {
    var A, B, S, T := FieldSelection(a), FieldSelection(b), SpreadSelection(first), SpreadSelection(second);
    var U, X := FieldSelection(u), FieldSelection(x);
    var g: Graph := map[A := [S], B := [T], S := [U], T := [U], U := [X], X := []];
    var rank: Ranks := map[A := 3, B := 3, S := 2, T := 2, U := 1, X := 0];
    assert SpreadTwice(g, rank, a, b, first, second, u, x);
  }

  // ------------------------------------------------------------------ an emptied field that is removed later

  /** The nodes of { ...F ...G b { ...G } } fragment F { s { x } } fragment G { c { ...F y } }. */
  datatype Nodes = Nodes(first: SpreadNode, second: SpreadNode, third: SpreadNode, fourth: SpreadNode, s: FieldNode,
                         x: FieldNode, c: FieldNode, y: FieldNode, b: FieldNode)

  ghost predicate SpreadsNest(g: Graph, rank: Ranks, n: Nodes) {
    && Wired(rank, g)
    && SpreadSelection(n.first) in g && g[SpreadSelection(n.first)] == [FieldSelection(n.s)]
    && SpreadSelection(n.second) in g && g[SpreadSelection(n.second)] == [FieldSelection(n.c)]
    && SpreadSelection(n.third) in g && g[SpreadSelection(n.third)] == [FieldSelection(n.s)]
    && SpreadSelection(n.fourth) in g && g[SpreadSelection(n.fourth)] == [FieldSelection(n.c)]
    && FieldSelection(n.s) in g && g[FieldSelection(n.s)] == [FieldSelection(n.x)]
    && FieldSelection(n.c) in g && g[FieldSelection(n.c)] == [SpreadSelection(n.third), FieldSelection(n.y)]
    && FieldSelection(n.b) in g && g[FieldSelection(n.b)] == [SpreadSelection(n.fourth)]
    && FieldSelection(n.x) in g && g[FieldSelection(n.x)] == []
    && FieldSelection(n.y) in g && g[FieldSelection(n.y)] == []
  }

  ghost predicate NestNamed(n: Nodes) {
    n.s.name == "s" && n.x.name == "x" && n.c.name == "c" && n.y.name == "y" && n.b.name == "b"
  }

  /** The operation. */
  function Nested(n: Nodes): seq<Selection> {
    [SpreadSelection(n.first), SpreadSelection(n.second), FieldSelection(n.b)]
  }

  /** x is removed below s at the top and below c, and s itself below b. */
  ghost predicate Heals(n: Nodes, removed: set<string>) {
    && ShouldRemove([n.s.name] + [n.x.name], removed) && ShouldRemove([n.c.name] + [n.s.name] + [n.x.name], removed)
    && ShouldRemove([n.b.name] + [n.c.name] + [n.s.name], removed)
    && !ShouldRemove([n.s.name], removed) && !ShouldRemove([n.c.name], removed) && !ShouldRemove([n.b.name], removed)
    && !ShouldRemove([n.c.name] + [n.s.name], removed) && !ShouldRemove([n.b.name] + [n.c.name], removed)
    && !ShouldRemove([n.c.name] + [n.y.name], removed)
    && !ShouldRemove([n.b.name] + [n.c.name] + [n.y.name], removed)
  }

  lemma ThreeEntriesHeal(n: Nodes)
    requires NestNamed(n)
    ensures Heals(n, {"s.x", "c.s.x", "b.c.s"})
  {
    JoinTwo("s", "x");
    JoinThree("c", "s", "x");
    JoinThree("b", "c", "s");
    assert "s" + "." + "x" == "s.x" && "c" + "." + "s" + "." + "x" == "c.s.x" && "b" + "." + "c" + "." + "s" == "b.c.s";
    JoinTwo("c", "s");
    JoinTwo("b", "c");
    JoinTwo("c", "y");
    JoinThree("b", "c", "y");
    assert ("c" + "." + "s")[0] == 'c' && ("b" + "." + "c")[0] == 'b' && ("c" + "." + "y")[0] == 'c';
    assert ("b" + "." + "c" + "." + "y")[4] == 'y' && "b.c.s"[4] == 's';
  }

  /** A field with one selection below it, which is dropped. */
  lemma FieldEmptied(g: Graph, rank: Ranks, bound: nat, s: FieldNode, x: FieldNode, parent: Path, removed: set<string>)
    requires Wired(rank, g) && FieldSelection(s) in g && rank[FieldSelection(s)] < bound
    requires g[FieldSelection(s)] == [FieldSelection(x)] && !ShouldRemove(parent + [s.name], removed)
    requires ShouldRemove(parent + [s.name] + [x.name], removed)
    ensures RewriteOne(g, rank, bound, FieldSelection(s), parent, removed)
      == Rewriting(g[FieldSelection(s) := []], [])
  {
    var S, X := FieldSelection(s), FieldSelection(x);
    assert X in g[S];
    RewriteSingle(g, rank, rank[S], X, parent + [s.name], removed);
  }

  /** A spread of a fragment with one selection. */
  lemma SpreadOfOne(g: Graph, rank: Ranks, bound: nat, f: SpreadNode, s: Selection, parent: Path, removed: set<string>)
    requires Wired(rank, g) && SpreadSelection(f) in g && rank[SpreadSelection(f)] < bound
    requires g[SpreadSelection(f)] == [s] && s in rank && rank[s] < rank[SpreadSelection(f)]
    ensures RewriteOne(g, rank, bound, SpreadSelection(f), parent, removed)
      == RewriteOne(g, rank, rank[SpreadSelection(f)], s, parent, removed)
  {
    RewriteSingle(g, rank, rank[SpreadSelection(f)], s, parent, removed);
  }

  /** c below the first ...G: s, without selections, passes for a leaf. */
  lemma CTakes(g: Graph, rank: Ranks, bound: nat, c: FieldNode, f: SpreadNode, s: FieldNode, y: FieldNode,
      removed: set<string>)
    requires Wired(rank, g) && FieldSelection(c) in g && rank[FieldSelection(c)] < bound
    requires g[FieldSelection(c)] == [SpreadSelection(f), FieldSelection(y)] && SpreadSelection(f) in g
    requires g[SpreadSelection(f)] == [FieldSelection(s)] && FieldSelection(s) in g && g[FieldSelection(s)] == []
    requires FieldSelection(y) in g && g[FieldSelection(y)] == [] && !ShouldRemove([c.name], removed)
    requires !ShouldRemove([c.name] + [s.name], removed) && !ShouldRemove([c.name] + [y.name], removed)
    ensures RewriteOne(g, rank, bound, FieldSelection(c), [], removed)
      == Rewriting(g[FieldSelection(c) := [FieldSelection(s), FieldSelection(y)]], [FieldSelection(c)])
  {
    var C, F, S, Y := FieldSelection(c), SpreadSelection(f), FieldSelection(s), FieldSelection(y);
    assert F in g[C] && Y in g[C] && S in g[F] && [] + [c.name] == [c.name];
    SpreadOfOne(g, rank, rank[C], f, S, [c.name], removed);
    LeafStays(g, rank, rank[F], s, [c.name], removed);
    LeafStays(g, rank, rank[C], y, [c.name], removed);
    RewriteTwo(g, rank, rank[C], F, Y, [c.name], removed);
    assert [S] + [Y] == [S, Y];
  }

  /** c below b: s is removed by its own path. */
  lemma CHeals(g: Graph, rank: Ranks, bound: nat, c: FieldNode, s: FieldNode, y: FieldNode, parent: Path,
      removed: set<string>)
    requires Wired(rank, g) && FieldSelection(c) in g && rank[FieldSelection(c)] < bound
    requires g[FieldSelection(c)] == [FieldSelection(s), FieldSelection(y)]
    requires FieldSelection(y) in g && g[FieldSelection(y)] == [] && !ShouldRemove(parent + [c.name], removed)
    requires ShouldRemove(parent + [c.name] + [s.name], removed) && !ShouldRemove(parent + [c.name] + [y.name], removed)
    ensures RewriteOne(g, rank, bound, FieldSelection(c), parent, removed)
      == Rewriting(g[FieldSelection(c) := [FieldSelection(y)]], [FieldSelection(c)])
  {
    var C, S, Y := FieldSelection(c), FieldSelection(s), FieldSelection(y);
    assert S in g[C] && Y in g[C];
    LeafStays(g, rank, rank[C], y, parent + [c.name], removed);
    RewriteTwo(g, rank, rank[C], S, Y, parent + [c.name], removed);
    assert [] + [Y] == [Y];
  }

  /** b, with ...G below it. */
  lemma BHeals(g: Graph, rank: Ranks, bound: nat, b: FieldNode, f: SpreadNode, c: FieldNode, s: FieldNode, y: FieldNode,
      removed: set<string>)
    requires Wired(rank, g) && FieldSelection(b) in g && rank[FieldSelection(b)] < bound
    requires g[FieldSelection(b)] == [SpreadSelection(f)] && SpreadSelection(f) in g
    requires g[SpreadSelection(f)] == [FieldSelection(c)] && FieldSelection(c) in g
    requires g[FieldSelection(c)] == [FieldSelection(s), FieldSelection(y)]
    requires FieldSelection(y) in g && g[FieldSelection(y)] == []
    requires !ShouldRemove([b.name], removed) && !ShouldRemove([b.name] + [c.name], removed)
    requires ShouldRemove([b.name] + [c.name] + [s.name], removed)
    requires !ShouldRemove([b.name] + [c.name] + [y.name], removed)
    ensures RewriteOne(g, rank, bound, FieldSelection(b), [], removed)
      == Rewriting(g[FieldSelection(c) := [FieldSelection(y)]][FieldSelection(b) := [FieldSelection(c)]],
                   [FieldSelection(b)])
  {
    var B, F, C := FieldSelection(b), SpreadSelection(f), FieldSelection(c);
    assert F in g[B] && C in g[F] && [] + [b.name] == [b.name];
    CHeals(g, rank, rank[F], c, s, y, [b.name], removed);
    SpreadOfOne(g, rank, rank[B], f, C, [b.name], removed);
    RewriteSingle(g, rank, rank[B], F, [b.name], removed);
  }

  /** After ...F and ...G at the top. */
  lemma TopSpreadsRewritten(g: Graph, rank: Ranks, bound: nat, n: Nodes, removed: set<string>)
    returns (g1: Graph, g2: Graph)
    requires SpreadsNest(g, rank, n) && Below(rank, Nested(n), bound) && Heals(n, removed)
    ensures Wired(rank, g1) && Wired(rank, g2)
    ensures RewriteOne(g, rank, bound, SpreadSelection(n.first), [], removed) == Rewriting(g1, [])
    ensures RewriteOne(g1, rank, bound, SpreadSelection(n.second), [], removed) == Rewriting(g2, [FieldSelection(n.c)])
    ensures g2 == g[FieldSelection(n.s) := []][FieldSelection(n.c) := [FieldSelection(n.s), FieldSelection(n.y)]]
  {
    var F, G := SpreadSelection(n.first), SpreadSelection(n.second);
    assert F in Nested(n) && G in Nested(n);
    assert FieldSelection(n.s) in g[F] && FieldSelection(n.c) in g[G];
    assert [] + [n.s.name] == [n.s.name];
    SpreadOfOne(g, rank, bound, n.first, FieldSelection(n.s), [], removed);
    FieldEmptied(g, rank, rank[F], n.s, n.x, [], removed);
    g1 := RewriteOne(g, rank, bound, F, [], removed).graph;
    SpreadOfOne(g1, rank, bound, n.second, FieldSelection(n.c), [], removed);
    CTakes(g1, rank, rank[G], n.c, n.third, n.s, n.y, removed);
    g2 := RewriteOne(g1, rank, bound, G, [], removed).graph;
  }

  /** And after b. */
  lemma LastRewritten(g: Graph, rank: Ranks, bound: nat, n: Nodes, removed: set<string>, g2: Graph) returns (g3: Graph)
    requires SpreadsNest(g, rank, n) && Below(rank, Nested(n), bound) && Heals(n, removed) && Wired(rank, g2)
    requires g2 == g[FieldSelection(n.s) := []][FieldSelection(n.c) := [FieldSelection(n.s), FieldSelection(n.y)]]
    ensures RewriteOne(g2, rank, bound, FieldSelection(n.b), [], removed) == Rewriting(g3, [FieldSelection(n.b)])
    ensures g3 == g2[FieldSelection(n.c) := [FieldSelection(n.y)]][FieldSelection(n.b) := [FieldSelection(n.c)]]
  {
    assert FieldSelection(n.b) in Nested(n);
    BHeals(g2, rank, bound, n.b, n.fourth, n.c, n.s, n.y, removed);
    g3 := RewriteOne(g2, rank, bound, FieldSelection(n.b), [], removed).graph;
  }

  lemma NestedRewritten(g: Graph, rank: Ranks, bound: nat, n: Nodes, removed: set<string>) returns (g3: Graph)
    requires SpreadsNest(g, rank, n) && Below(rank, Nested(n), bound) && Heals(n, removed) && NestNamed(n)
    ensures RewriteAll(g, rank, bound, Nested(n), [], removed)
      == Rewriting(g3, [FieldSelection(n.c), FieldSelection(n.b)])
    ensures Expands(g3, [FieldSelection(n.c), FieldSelection(n.b)], NestedLeft(n))
  {
    var g1, g2 := TopSpreadsRewritten(g, rank, bound, n, removed);
    g3 := LastRewritten(g, rank, bound, n, removed, g2);
    AllThree(g, rank, bound, n, removed, g1, g2, g3);
    NestedLeftStands(n, g3);
  }

  lemma JustTwo<T>(a: T, b: T)
    ensures [] + ([a] + [b]) == [a, b]
  {
  }

  lemma AllThree(g: Graph, rank: Ranks, bound: nat, n: Nodes, removed: set<string>, g1: Graph, g2: Graph, g3: Graph)
    requires Wired(rank, g) && Below(rank, Nested(n), bound) && Wired(rank, g1) && Wired(rank, g2)
    requires var F, G, B := SpreadSelection(n.first), SpreadSelection(n.second), FieldSelection(n.b);
      && F in rank && G in rank && B in rank && rank[F] < bound && rank[G] < bound && rank[B] < bound
      && RewriteOne(g, rank, bound, F, [], removed) == Rewriting(g1, [])
      && RewriteOne(g1, rank, bound, G, [], removed) == Rewriting(g2, [FieldSelection(n.c)])
      && RewriteOne(g2, rank, bound, B, [], removed) == Rewriting(g3, [B])
    ensures RewriteAll(g, rank, bound, Nested(n), [], removed)
      == Rewriting(g3, [FieldSelection(n.c), FieldSelection(n.b)])
  {
    RewriteTwo(g1, rank, bound, SpreadSelection(n.second), FieldSelection(n.b), [], removed);
    assert Nested(n)[1..] == [SpreadSelection(n.second), FieldSelection(n.b)];
    JustTwo(FieldSelection(n.c), FieldSelection(n.b));
  }

  /** The expansion, piece by piece. */
  function BelowS(n: Nodes): Expansion {
    Sel(FieldSelection(n.x), Done, Done)
  }

  function BodyF(n: Nodes): Expansion {
    Sel(FieldSelection(n.s), BelowS(n), Done)
  }

  function BelowC(n: Nodes): Expansion {
    Sel(SpreadSelection(n.third), BodyF(n), Sel(FieldSelection(n.y), Done, Done))
  }

  function BodyG(n: Nodes): Expansion {
    Sel(FieldSelection(n.c), BelowC(n), Done)
  }

  function BelowB(n: Nodes): Expansion {
    Sel(SpreadSelection(n.fourth), BodyG(n), Done)
  }

  function NestedExpansion(n: Nodes): Expansion {
    Sel(SpreadSelection(n.first), BodyF(n),
        Sel(SpreadSelection(n.second), BodyG(n), Sel(FieldSelection(n.b), BelowB(n), Done)))
  }

  lemma NestedExpands(g: Graph, rank: Ranks, n: Nodes)
    requires SpreadsNest(g, rank, n)
    ensures Expands(g, Nested(n), NestedExpansion(n))
  {
    ExpandsAlone(g, FieldSelection(n.x), Done);
    ExpandsAlone(g, FieldSelection(n.y), Done);
    ExpandsAlone(g, FieldSelection(n.s), BelowS(n));
    assert [SpreadSelection(n.third), FieldSelection(n.y)][1..] == [FieldSelection(n.y)];
    assert Expands(g, g[FieldSelection(n.c)], BelowC(n));
    ExpandsAlone(g, FieldSelection(n.c), BelowC(n));
    ExpandsAlone(g, SpreadSelection(n.fourth), BodyG(n));
    assert Nested(n)[1..] == [SpreadSelection(n.second), FieldSelection(n.b)];
    assert Nested(n)[1..][1..] == [FieldSelection(n.b)];
    ExpandsAlone(g, FieldSelection(n.b), BelowB(n));
  }

  /** What ought to be left: { c { y } b { c { y } } }. */
  function NestedLeft(n: Nodes): Expansion {
    var c := Sel(FieldSelection(n.y), Done, Done);
    Sel(FieldSelection(n.c), c, Sel(FieldSelection(n.b), Sel(FieldSelection(n.c), c, Done), Done))
  }

  lemma NestedPlainly(n: Nodes, removed: set<string>)
    requires Heals(n, removed)
    ensures Rewritten(NestedExpansion(n), [], removed) == NestedLeft(n)
    ensures Rewritten(BelowS(n), [n.s.name], removed).Done?
  {
    var y := Sel(FieldSelection(n.y), Done, Done);
    assert [] + [n.s.name] == [n.s.name] && [] + [n.c.name] == [n.c.name] && [] + [n.b.name] == [n.b.name];
    assert Rewritten(BelowS(n), [n.s.name], removed) == Done;
    assert Rewritten(BelowS(n), [n.c.name] + [n.s.name], removed) == Done;
    assert Rewritten(BodyF(n), [], removed) == Done && Rewritten(BodyF(n), [n.c.name], removed) == Done;
    assert Rewritten(BodyF(n), [n.b.name] + [n.c.name], removed) == Done;
    assert Rewritten(y, [n.c.name], removed) == y && Rewritten(y, [n.b.name] + [n.c.name], removed) == y;
    assert Rewritten(BelowC(n), [n.c.name], removed) == y;
    assert Rewritten(BelowC(n), [n.b.name] + [n.c.name], removed) == y;
    assert Rewritten(BodyG(n), [], removed) == Sel(FieldSelection(n.c), y, Done);
    assert Rewritten(BodyG(n), [n.b.name], removed) == Sel(FieldSelection(n.c), y, Done);
    assert Rewritten(BelowB(n), [n.b.name], removed) == Sel(FieldSelection(n.c), y, Done);
    NestedConcat(n, removed, Sel(FieldSelection(n.c), y, Done));
  }

  lemma NestedConcat(n: Nodes, removed: set<string>, c: Expansion)
    requires c == Sel(FieldSelection(n.c), Sel(FieldSelection(n.y), Done, Done), Done)
      && !ShouldRemove([n.b.name], removed)
    requires Rewritten(BodyF(n), [], removed) == Done && Rewritten(BodyG(n), [], removed) == c
    requires Rewritten(BelowB(n), [n.b.name], removed) == c
    ensures Rewritten(NestedExpansion(n), [], removed) == NestedLeft(n)
  {
    assert [] + [n.b.name] == [n.b.name];
    var last := Sel(FieldSelection(n.b), BelowB(n), Done);
    assert Rewritten(last, [], removed) == Sel(FieldSelection(n.b), c, Done);
    var middle := Sel(SpreadSelection(n.second), BodyG(n), last);
    assert Rewritten(middle, [], removed) == Concat(c, Rewritten(last, [], removed));
    assert Concat(c.rest, Rewritten(last, [], removed)) == Rewritten(last, [], removed);
    assert Rewritten(middle, [], removed) == NestedLeft(n);
  }

  lemma NestedIsNotSteady(n: Nodes, removed: set<string>)
    requires Heals(n, removed) && n.c != n.s
    ensures !Steady([NestedExpansion(n)], removed)
  {
    var S := FieldSelection(n.s);
    var none: Met := map[];
    var one: Met := map[S := [n.s.name]];
    assert [] + [n.s.name] == [n.s.name] && [] + [n.c.name] == [n.c.name];
    assert Walk(none, BelowS(n), [n.s.name], removed) == Some(none);
    assert WalkSet(none, S, BelowS(n), [n.s.name], removed) == Some(one);
    assert Walk(none, BodyF(n), [], removed) == Some(one);
    assert Rewritten(BelowS(n), [n.c.name] + [n.s.name], removed) == Done;
    assert WalkOne(one, S, BelowS(n), [n.c.name], removed) == None;
    assert Walk(one, BodyF(n), [n.c.name], removed) == None;
    assert Walk(one, BelowC(n), [n.c.name], removed) == None;
    assert WalkOne(one, FieldSelection(n.c), BelowC(n), [], removed) == None;
    assert Walk(one, BodyG(n), [], removed) == None;
    assert Walk(one, NestedExpansion(n).rest, [], removed) == None;
    assert Walk(none, NestedExpansion(n), [], removed) == None;
    assert [NestedExpansion(n)][..0] == [] && WalkAll([], removed) == Some(none);
  }

  /** Removing s.x, c.s.x and b.c.s: the first ...F empties s, the first ...G takes it for a leaf, and ...G below b
      removes it again, from both places. The query comes out plainly rewritten, yet is not steady. */
  lemma EmptiedThenRemoved(g: Graph, rank: Ranks, bound: nat, n: Nodes, removed: set<string>)
    requires SpreadsNest(g, rank, n) && AllBelow(rank, [Nested(n)], bound) && NestNamed(n)
    requires removed == {"s.x", "c.s.x", "b.c.s"}
    ensures AllExpand(g, [Nested(n)], [NestedExpansion(n)]) && !Steady([NestedExpansion(n)], removed)
    ensures AllRewritten([NestedExpansion(n)], RewriteOperations(g, rank, bound, [Nested(n)], removed), removed)
  {
    ThreeEntriesHeal(n);
    assert Nested(n) in [Nested(n)];
    NestedExpands(g, rank, n);
    NestedIsNotSteady(n, removed);
    Healed(g, rank, bound, n, removed);
  }

  lemma Healed(g: Graph, rank: Ranks, bound: nat, n: Nodes, removed: set<string>)
    requires SpreadsNest(g, rank, n) && AllBelow(rank, [Nested(n)], bound) && NestNamed(n) && Heals(n, removed)
    ensures AllRewritten([NestedExpansion(n)], RewriteOperations(g, rank, bound, [Nested(n)], removed), removed)
  {
    assert Nested(n) in [Nested(n)];
    var g3 := NestedRewritten(g, rank, bound, n, removed);
    NestedPlainly(n, removed);
    OneRewritten(g, rank, bound, Nested(n), NestedExpansion(n), removed);
  }

  lemma OneRewritten(g: Graph, rank: Ranks, bound: nat, operation: seq<Selection>, h: Expansion, removed: set<string>)
    requires Wired(rank, g) && Below(rank, operation, bound)
    requires var r := RewriteAll(g, rank, bound, operation, [], removed);
      Expands(r.graph, r.out, Rewritten(h, [], removed))
    ensures AllRewritten([h], RewriteOperations(g, rank, bound, [operation], removed), removed)
  {
    OneOperation(g, rank, bound, operation, removed);
  }

  lemma NestedLeftStands(n: Nodes, g: Graph)
    requires FieldSelection(n.b) in g && g[FieldSelection(n.b)] == [FieldSelection(n.c)]
    requires FieldSelection(n.c) in g && g[FieldSelection(n.c)] == [FieldSelection(n.y)]
    requires FieldSelection(n.y) in g && g[FieldSelection(n.y)] == []
    ensures Expands(g, [FieldSelection(n.c), FieldSelection(n.b)], NestedLeft(n))
  {
    var y := Sel(FieldSelection(n.y), Done, Done);
    ExpandsAlone(g, FieldSelection(n.y), Done);
    ExpandsAlone(g, FieldSelection(n.c), y);
    ExpandsAlone(g, FieldSelection(n.b), Sel(FieldSelection(n.c), y, Done));
    assert [FieldSelection(n.c), FieldSelection(n.b)][1..] == [FieldSelection(n.b)];
  }

  /** Such a query exists. */
  lemma SpreadsNestExists(n: Nodes)
    requires NestNamed(n) && n.first != n.second && n.first != n.third && n.first != n.fourth
    requires n.second != n.third && n.second != n.fourth && n.third != n.fourth
    ensures exists g, rank :: SpreadsNest(g, rank, n)
  {
    var F, G, H, I := SpreadSelection(n.first), SpreadSelection(n.second), SpreadSelection(n.third),
      SpreadSelection(n.fourth);
    var S, X, C, Y, B := FieldSelection(n.s), FieldSelection(n.x), FieldSelection(n.c), FieldSelection(n.y),
      FieldSelection(n.b);
    var g: Graph := map[F := [S], G := [C], H := [S], I := [C], S := [X], C := [H, Y], B := [I], X := [], Y := []];
    var rank: Ranks := map[F := 2, G := 4, H := 2, I := 4, S := 1, C := 3, B := 5, X := 0, Y := 0];
    assert SpreadsNest(g, rank, n);
  }

  // ------------------------------------------------------------------ an emptied field out of sight

  /** { ...G ...G } fragment G { c { s { x } y } }. */
  function TwiceExpansion(first: SpreadNode, second: SpreadNode, c: FieldNode, s: FieldNode, x: FieldNode,
      y: FieldNode): Expansion {
    var body := Sel(FieldSelection(c), BesideY(s, x, y), Done);
    Sel(SpreadSelection(first), body, Sel(SpreadSelection(second), body, Done))
  }

  function BesideY(s: FieldNode, x: FieldNode, y: FieldNode): Expansion {
    Sel(FieldSelection(s), Sel(FieldSelection(x), Done, Done), Sel(FieldSelection(y), Done, Done))
  }

  /** Removing c.s.x empties s, which the second spread reaches as well; but c has been rewritten by then and holds s no
      more. The query is steady. */
  lemma EmptiedOutOfSight(first: SpreadNode, second: SpreadNode, c: FieldNode, s: FieldNode, x: FieldNode, y: FieldNode,
      removed: set<string>)
    requires c != s && ShouldRemove([c.name] + [s.name] + [x.name], removed) && !ShouldRemove([c.name], removed)
    requires !ShouldRemove([c.name] + [s.name], removed) && !ShouldRemove([c.name] + [y.name], removed)
    ensures Rewritten(Sel(FieldSelection(x), Done, Done), [c.name] + [s.name], removed).Done?
    ensures Steady([TwiceExpansion(first, second, c, s, x, y)], removed)
  {
    var C, S, below, none := FieldSelection(c), FieldSelection(s), BesideY(s, x, y), map[];
    var one: Met, two: Met := map[S := [c.name] + [s.name]], map[S := [c.name] + [s.name], C := [c.name]];
    var body, leaf := Sel(C, below, Done), Sel(FieldSelection(x), Done, Done);
    assert [] + [c.name] == [c.name];
    assert Rewritten(leaf, [c.name] + [s.name], removed) == Done;
    assert Walk(none, leaf, [c.name] + [s.name], removed) == Some(none);
    assert WalkSet(none, S, leaf, [c.name] + [s.name], removed) == Some(one);
    assert Walk(one, below.rest, [c.name], removed) == Some(one);
    assert Walk(none, below, [c.name], removed) == Some(one);
    assert WalkSet(none, C, below, [c.name], removed) == Some(two);
    assert Walk(none, body, [], removed) == Some(two);
    assert Rewritten(below.rest, [c.name], removed) == below.rest;
    assert Rewritten(below, [c.name], removed) == below.rest;
    assert WalkSet(two, C, below, [c.name], removed) == Some(two);
    assert Walk(two, body, [], removed) == Some(two);
    assert Walk(two, Sel(SpreadSelection(second), body, Done), [], removed) == Some(two);
    assert Walk(none, TwiceExpansion(first, second, c, s, x, y), [], removed) == Some(two);
    assert [TwiceExpansion(first, second, c, s, x, y)][..0] == [] && WalkAll([], removed) == Some(none);
  }
}
