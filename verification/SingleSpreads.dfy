// Documents that are rewritten plainly whatever is removed: no selection set that is overwritten is reached through
// two spreads. Fragments that hold only fields without selections may be spread any number of times.
module SingleSpreads {
  import opened Wrappers
  import opened SyntaxNodes
  import opened RemovedPaths
  import opened SharedGraph
  import opened ExpandedShape
  import opened PathRewriter
  import opened RewrittenQuery
  import opened SteadyRewriting
  import opened SteadyQuery

  /** The selection's own set is overwritten when it is rewritten: a field with selections or an inline fragment. */
  ghost predicate Overwritten(g: Graph, s: Selection)
    requires s in g
  {
    !s.SpreadSelection? && (s.FieldSelection? ==> g[s] != [])
  }

  /** Overwritten, or a spread of a fragment that leads to such a selection. */
  ghost predicate Heavy(rank: Ranks, g: Graph, s: Selection)
    requires Wired(rank, g) && s in g
    decreases rank[s]
  {
    Overwritten(g, s) || (s.SpreadSelection? && exists t <- g[s] :: Heavy(rank, g, t))
  }

  ghost function HeavyOnes(rank: Ranks, g: Graph): set<Selection>
    requires Wired(rank, g)
  {
    set s | s in g && Heavy(rank, g, s)
  }

  lemma ParentIsHeavy(rank: Ranks, g: Graph, s: Selection, t: Selection)
    requires Wired(rank, g) && s in g && t in g[s] && t in HeavyOnes(rank, g)
    ensures s in HeavyOnes(rank, g)
  {
  }

  /** No selection of the set is in the list twice. */
  ghost predicate NoneTwice(sels: seq<Selection>, heavy: set<Selection>) {
    forall i, j | 0 <= i < j < |sels| && sels[i] in heavy :: sels[i] != sels[j]
  }

  /** Every selection of the set stands in one place only: in an operation, or below one selection, and there once. A
      fragment spread twice would have its selections below two spreads. */
  ghost predicate OnePlace(g: Graph, operations: seq<seq<Selection>>, heavy: set<Selection>) {
    && (forall s <- g :: NoneTwice(g[s], heavy))
    && (forall op <- operations :: NoneTwice(op, heavy))
    && OneParent(g, heavy)
    && (forall op, s, t | op in operations && s in g && t in g[s] && t in heavy :: t !in op)
    && (forall i, j, t | 0 <= i < j < |operations| && t in operations[i] && t in heavy :: t !in operations[j])
  }

  ghost predicate OneParent(g: Graph, heavy: set<Selection>) {
    forall s, s', t | s in g && s' in g && t in g[s] && t in g[s'] && t in heavy :: s == s'
  }

  /** Two expansions whose tops are not in each other have no heavy member in common. */
  lemma {:induction false} Apart(g: Graph, rank: Ranks, a: seq<Selection>, h: Expansion, b: seq<Selection>,
      i: Expansion, bound: nat, m: Selection)
    requires Wired(rank, g) && OneParent(g, HeavyOnes(rank, g)) && m in HeavyOnes(rank, g)
    requires Expands(g, a, h) && Expands(g, b, i) && Below(rank, a, bound) && Below(rank, b, bound)
    requires (forall s <- a | s in HeavyOnes(rank, g) :: s !in Members(i))
    requires (forall s <- b | s in HeavyOnes(rank, g) :: s !in Members(h))
    requires m in rank && rank[m] <= bound
    ensures m !in Members(h) || m !in Members(i)
    decreases bound - rank[m]
  {
    if m in Members(h) && m in Members(i) {
      MemberStands(g, a, h, m);
      MemberStands(g, b, i, m);
      var p :| p in Members(h) && p in g && m in g[p];
      var p' :| p' in Members(i) && p' in g && m in g[p'];
      assert p == p';
      ParentIsHeavy(rank, g, p, m);
      MembersBelow(g, rank, a, h, bound);
      Apart(g, rank, a, h, b, i, bound, p);
    }
  }

  lemma ApartAll(g: Graph, rank: Ranks, a: seq<Selection>, h: Expansion, b: seq<Selection>, i: Expansion, bound: nat)
    requires Wired(rank, g) && OneParent(g, HeavyOnes(rank, g))
    requires Expands(g, a, h) && Expands(g, b, i) && Below(rank, a, bound) && Below(rank, b, bound)
    requires (forall s <- a | s in HeavyOnes(rank, g) :: s !in Members(i))
    requires (forall s <- b | s in HeavyOnes(rank, g) :: s !in Members(h))
    ensures forall m <- Members(h) | m in HeavyOnes(rank, g) :: m !in Members(i)
  {
    MembersBelow(g, rank, a, h, bound);
    forall m <- Members(h) | m in HeavyOnes(rank, g)
      ensures m !in Members(i)
    {
      Apart(g, rank, a, h, b, i, bound, m);
    }
  }

  /** The heavy ones among the selections stand nowhere below the bound. */
  ghost predicate TopAt(g: Graph, rank: Ranks, sels: seq<Selection>, bound: nat)
    requires Wired(rank, g)
  {
    forall p, t | p in g && p in rank && t in sels && t in HeavyOnes(rank, g) && t in g[p] :: rank[p] >= bound
  }

  lemma TopIsNotBelow(g: Graph, rank: Ranks, sels: seq<Selection>, bound: nat, a: seq<Selection>, h: Expansion,
      t: Selection)
    requires Wired(rank, g) && TopAt(g, rank, sels, bound) && t in sels && t in HeavyOnes(rank, g)
    requires Expands(g, a, h) && Below(rank, a, bound) && t !in a
    ensures t !in Members(h)
  {
    if t in Members(h) {
      MemberStands(g, a, h, t);
      MembersBelow(g, rank, a, h, bound);
    }
  }

  lemma ChildIsNotBeside(g: Graph, rank: Ranks, s: Selection, t: Selection, rest: seq<Selection>, i: Expansion)
    requires Wired(rank, g) && OneParent(g, HeavyOnes(rank, g)) && s in g && t in g[s] && t in HeavyOnes(rank, g)
    requires Expands(g, rest, i) && s !in Members(i) && t !in rest
    ensures t !in Members(i)
  {
    if t in Members(i) {
      MemberStands(g, rest, i, t);
    }
  }

  /** Nothing heavy occurs twice in the expansion. */
  ghost predicate HeavyOnce(h: Expansion, heavy: set<Selection>) {
    match h
    case Done => true
    case Sel(s, sub, rest) =>
      && (s in heavy ==> s !in Members(sub) && s !in Members(rest))
      && (forall m <- Members(sub) | m in heavy :: m !in Members(rest))
      && HeavyOnce(sub, heavy) && HeavyOnce(rest, heavy)
  }

  /** The first selection and what is below it, and the selections beside it and what is below them. */
  lemma FirstAndRestApart(g: Graph, rank: Ranks, s: Selection, sub: Expansion, sels: seq<Selection>, rest: Expansion,
      bound: nat)
    requires Wired(rank, g) && OneParent(g, HeavyOnes(rank, g)) && s in HeavyOnes(rank, g) && s !in sels
    requires Below(rank, [s] + sels, bound) && TopAt(g, rank, [s] + sels, bound)
    requires Expands(g, g[s], sub) && Expands(g, sels, rest)
    ensures s !in Members(sub) && s !in Members(rest)
    ensures forall m <- Members(sub) | m in HeavyOnes(rank, g) :: m !in Members(rest)
  {
    assert s in [s] + sels && forall t <- sels :: t in [s] + sels;
    MembersBelow(g, rank, g[s], sub, rank[s]);
    TopIsNotBelow(g, rank, [s] + sels, bound, sels, rest, s);
    forall t <- g[s] | t in HeavyOnes(rank, g)
      ensures t !in Members(rest)
    {
      ChildIsNotBeside(g, rank, s, t, sels, rest);
    }
    forall t <- sels | t in HeavyOnes(rank, g)
      ensures t !in Members(sub)
    {
      TopIsNotBelow(g, rank, [s] + sels, bound, g[s], sub, t);
    }
    ApartAll(g, rank, g[s], sub, sels, rest, bound);
  }

  /** Below what is not heavy nothing is. */
  lemma LightHasNoHeavy(g: Graph, rank: Ranks, s: Selection, sub: Expansion, m: Selection)
    requires Wired(rank, g) && s in g && s !in HeavyOnes(rank, g) && Expands(g, g[s], sub) && m in Members(sub)
    ensures m !in HeavyOnes(rank, g)
    decreases if m in rank && rank[m] < rank[s] then rank[s] - rank[m] else 0
  {
    MembersBelow(g, rank, g[s], sub, rank[s]);
    if m in HeavyOnes(rank, g) {
      MemberStands(g, g[s], sub, m);
      if m in g[s] {
        ParentIsHeavy(rank, g, s, m);
        assert false;
      } else {
        var p :| p in Members(sub) && p in g && m in g[p];
        ParentIsHeavy(rank, g, p, m);
        LightHasNoHeavy(g, rank, s, sub, p);
        assert false;
      }
    }
  }

  /** What stands in one place only is not repeated in the expansion. */
  lemma {:induction false} OnePlaceOnce(g: Graph, rank: Ranks, sels: seq<Selection>, h: Expansion, bound: nat)
    requires Wired(rank, g) && OneParent(g, HeavyOnes(rank, g)) && NoneTwice(sels, HeavyOnes(rank, g))
    requires forall s <- g :: NoneTwice(g[s], HeavyOnes(rank, g))
    requires Below(rank, sels, bound) && TopAt(g, rank, sels, bound) && Expands(g, sels, h)
    ensures HeavyOnce(h, HeavyOnes(rank, g))
    decreases h
  {
    if h.Sel? {
      var s, rest := h.s, sels[1..];
      assert sels == [s] + rest && s in sels && forall t <- rest :: t in sels;
      OnePlaceOnce(g, rank, g[s], h.sub, rank[s]);
      OnePlaceOnce(g, rank, rest, h.rest, bound);
      if s in HeavyOnes(rank, g) {
        FirstAndRestApart(g, rank, s, h.sub, rest, h.rest, bound);
      } else {
        forall m <- Members(h.sub)
          ensures m !in HeavyOnes(rank, g)
        {
          LightHasNoHeavy(g, rank, s, h.sub, m);
        }
      }
    }
  }

  lemma OperationsApart(g: Graph, rank: Ranks, bound: nat, operations: seq<seq<Selection>>, i: nat, h: Expansion,
      j: nat, k: Expansion)
    requires Wired(rank, g) && AllBelow(rank, operations, bound) && OnePlace(g, operations, HeavyOnes(rank, g))
    requires i < j < |operations| && Expands(g, operations[i], h) && Expands(g, operations[j], k)
    ensures forall m <- Members(h) | m in HeavyOnes(rank, g) :: m !in Members(k)
  {
    var a, b := operations[i], operations[j];
    assert a in operations && b in operations;
    forall t <- a | t in HeavyOnes(rank, g)
      ensures t !in Members(k)
    {
      TopIsNotBelow(g, rank, a, bound, b, k, t);
    }
    forall t <- b | t in HeavyOnes(rank, g)
      ensures t !in Members(h)
    {
      TopIsNotBelow(g, rank, b, bound, a, h, t);
    }
    ApartAll(g, rank, a, h, b, k, bound);
  }

  // ------------------------------------------------------------------ steady whatever is removed

  /** Nothing heavy of the expansion has been met. */
  ghost predicate NewTo(m: Met, heavy: set<Selection>, h: Expansion) {
    forall s <- Members(h) | s in heavy :: s !in m
  }

  ghost predicate MetOnly(m: Met, m': Met, members: set<Selection>) {
    m'.Keys <= m.Keys + members
  }

  /** Where nothing heavy is met twice, the walk gets through, and meets only heavy members. */
  lemma {:induction false} WalkOnce(g: Graph, rank: Ranks, sels: seq<Selection>, m: Met, h: Expansion, parent: Path,
      removed: set<string>)
    requires Wired(rank, g) && Expands(g, sels, h) && HeavyOnce(h, HeavyOnes(rank, g))
      && NewTo(m, HeavyOnes(rank, g), h)
    ensures Walk(m, h, parent, removed).Some?
    ensures MetOnly(m, Walk(m, h, parent, removed).value, Members(h) * HeavyOnes(rank, g))
    decreases h, 0
  {
    if h.Sel? {
      WalkOneOnce(g, rank, m, h.s, h.sub, parent, removed);
      var m1 := WalkOne(m, h.s, h.sub, parent, removed).value;
      WalkOnce(g, rank, sels[1..], m1, h.rest, parent, removed);
    }
  }

  lemma {:induction false} WalkOneOnce(g: Graph, rank: Ranks, m: Met, s: Selection, sub: Expansion, parent: Path,
      removed: set<string>)
    requires Wired(rank, g) && s in g && Expands(g, g[s], sub) && HeavyOnce(sub, HeavyOnes(rank, g))
    requires NewTo(m, HeavyOnes(rank, g), sub)
    requires s in HeavyOnes(rank, g) ==> s !in m && s !in Members(sub)
    ensures WalkOne(m, s, sub, parent, removed).Some?
    ensures MetOnly(m, WalkOne(m, s, sub, parent, removed).value, ({s} + Members(sub)) * HeavyOnes(rank, g))
    decreases sub, 2
  {
    match s {
      case FieldSelection(n) =>
        if !ShouldRemove(parent + [n.name], removed) && sub.Sel? {
          WalkSetOnce(g, rank, m, s, sub, parent + [n.name], removed);
        }
      case InlineSelection(n) => WalkSetOnce(g, rank, m, s, sub, parent, removed);
      case SpreadSelection(n) => WalkOnce(g, rank, g[s], m, sub, parent, removed);
    }
  }

  lemma {:induction false} WalkSetOnce(g: Graph, rank: Ranks, m: Met, s: Selection, sub: Expansion, path: Path,
      removed: set<string>)
    requires Wired(rank, g) && s in g && Expands(g, g[s], sub) && HeavyOnce(sub, HeavyOnes(rank, g))
    requires NewTo(m, HeavyOnes(rank, g), sub) && s !in m && Overwritten(g, s)
    ensures WalkSet(m, s, sub, path, removed).Some?
    ensures MetOnly(m, WalkSet(m, s, sub, path, removed).value, ({s} + Members(sub)) * HeavyOnes(rank, g))
    decreases sub, 1
  {
    assert s in HeavyOnes(rank, g);
    WalkOnce(g, rank, g[s], m, sub, path, removed);
  }

  /** All that was met is heavy and stands in one of the expansions. */
  ghost predicate MetAmong(m: Met, heavy: set<Selection>, hs: seq<Expansion>) {
    forall s <- m :: s in heavy && exists h <- hs :: s in Members(h)
  }

  lemma LastIsNew(g: Graph, rank: Ranks, bound: nat, operations: seq<seq<Selection>>, hs: seq<Expansion>, m: Met)
    requires Wired(rank, g) && AllBelow(rank, operations, bound) && OnePlace(g, operations, HeavyOnes(rank, g))
    requires hs != [] && AllExpand(g, operations, hs) && MetAmong(m, HeavyOnes(rank, g), hs[..|hs| - 1])
    ensures NewTo(m, HeavyOnes(rank, g), hs[|hs| - 1])
  {
    var last := |hs| - 1;
    forall s <- Members(hs[last]) | s in HeavyOnes(rank, g)
      ensures s !in m
    {
      if s in m {
        var h :| h in hs[..last] && s in Members(h);
        var i := IndexIn(hs[..last], h);
        OperationsApart(g, rank, bound, operations, i, h, last, hs[last]);
        assert false;
      }
    }
  }

  lemma FrontHasOnePlace(g: Graph, operations: seq<seq<Selection>>, k: nat, heavy: set<Selection>)
    requires OnePlace(g, operations, heavy) && k <= |operations|
    ensures OnePlace(g, operations[..k], heavy)
  {
    assert forall op <- operations[..k] :: op in operations;
  }

  /** What stands in one place is steady, whatever is removed. */
  lemma {:induction false} OnePlaceIsSteady(g: Graph, rank: Ranks, bound: nat, operations: seq<seq<Selection>>,
      hs: seq<Expansion>, removed: set<string>)
    requires Wired(rank, g) && AllBelow(rank, operations, bound) && OnePlace(g, operations, HeavyOnes(rank, g))
    requires AllExpand(g, operations, hs)
    ensures Steady(hs, removed) && MetAmong(WalkAll(hs, removed).value, HeavyOnes(rank, g), hs)
    decreases |hs|
  {
    if hs != [] {
      var last := |hs| - 1;
      FrontHasOnePlace(g, operations, last, HeavyOnes(rank, g));
      OnePlaceIsSteady(g, rank, bound, operations[..last], hs[..last], removed);
      var m := WalkAll(hs[..last], removed).value;
      LastIsNew(g, rank, bound, operations, hs, m);
      LastOnce(g, rank, bound, operations, hs[last], last);
      WalkOnce(g, rank, operations[last], m, hs[last], [], removed);
      FrontAndLast(hs);
    }
  }

  lemma LastOnce(g: Graph, rank: Ranks, bound: nat, operations: seq<seq<Selection>>, h: Expansion, last: nat)
    requires Wired(rank, g) && AllBelow(rank, operations, bound) && OnePlace(g, operations, HeavyOnes(rank, g))
    requires last < |operations| && Expands(g, operations[last], h)
    ensures HeavyOnce(h, HeavyOnes(rank, g))
  {
    assert operations[last] in operations;
    OnePlaceOnce(g, rank, operations[last], h, bound);
  }

  // ------------------------------------------------------------------ spreading at most once

  /** What a parser yields: no selection is in two of the lists of fields, inline fragments, fragment definitions and
      operations, and none is in a list twice. */
  ghost predicate Parsed(g: Graph, bodies: Bodies, operations: seq<seq<Selection>>) {
    && (forall s <- g :: NoneTwice(g[s], g.Keys))
    && (forall op <- operations :: NoneTwice(op, g.Keys))
    && (forall s, s', t | s in g && s' in g && !s.SpreadSelection? && !s'.SpreadSelection? && t in g[s] && t in g[s'] ::
          s == s')
    && (forall f, f', t | f in bodies && f' in bodies && t in bodies[f] && t in bodies[f'] :: f == f')
    && (forall s, f, t | s in g && !s.SpreadSelection? && f in bodies && t in g[s] :: t !in bodies[f])
    && (forall op, s, t | op in operations && s in g && t in g[s] :: t !in op)
    && (forall i, j, t | 0 <= i < j < |operations| && t in operations[i] :: t !in operations[j])
  }

  /** No fragment that leads to a selection whose set is overwritten is spread twice. */
  ghost predicate SpreadOnce(rank: Ranks, g: Graph)
    requires Wired(rank, g)
  {
    forall s, s' | s in g && s' in g && s.SpreadSelection? && s'.SpreadSelection? && s.spread.name == s'.spread.name
        && Heavy(rank, g, s) :: s == s'
  }

  /** For a parsed document: heavy selections stand in one place exactly when each fragment that has some is spread at
      most once. */
  lemma OnePlaceIffSpreadOnce(g: Graph, rank: Ranks, bodies: Bodies, operations: seq<seq<Selection>>)
    requires Wired(rank, g) && Parsed(g, bodies, operations) && SpreadsLead(g, bodies)
    ensures OnePlace(g, operations, HeavyOnes(rank, g)) <==> SpreadOnce(rank, g)
  {
    if SpreadOnce(rank, g) {
      forall s, s', t | s in g && s' in g && t in g[s] && t in g[s'] && t in HeavyOnes(rank, g)
        ensures s == s'
      {
        if s.SpreadSelection? && s'.SpreadSelection? {
          assert s.spread.name in bodies && s'.spread.name in bodies;
        }
      }
    }
    if OnePlace(g, operations, HeavyOnes(rank, g)) {
      forall s, s' | s in g && s' in g && s.SpreadSelection? && s'.SpreadSelection? && s.spread.name == s'.spread.name
          && Heavy(rank, g, s)
        ensures s == s'
      {
        var t :| t in g[s] && Heavy(rank, g, t);
        assert t in HeavyOnes(rank, g) && g[s'] == g[s];
      }
    }
  }

  /** When each such fragment is spread at most once, whatever is removed: the leaf paths of each rewritten operation
      are, in order, those of the operation with precisely the ones left out that an entry removes. */
  lemma RemainingExactly(g: Graph, rank: Ranks, bodies: Bodies, bound: nat, operations: seq<seq<Selection>>,
      entries: seq<string>, i: nat, h: Expansion)
    returns (h': Expansion)
    requires Wired(rank, g) && SpreadsLead(g, bodies) && Parsed(g, bodies, operations) && SpreadOnce(rank, g)
    requires AllNamesClean(g) && AllBelow(rank, operations, bound) && i < |operations| && Expands(g, operations[i], h)
    ensures var q := RewriteOperations(g, rank, bound, operations, RemovedSet(entries));
      Expands(q.graph, q.operations[i], h') && Leaves(h') == Remaining(Leaves(h), entries)
  {
    OnePlaceIffSpreadOnce(g, rank, bodies, operations);
    var hs := ExpansionsOf(g, rank, bound, operations);
    OnePlaceIsSteady(g, rank, bound, operations, hs, RemovedSet(entries));
    h' := SteadyRemainsExactly(g, rank, bound, operations, hs, entries, i);
    ExpansionUnique(g, operations[i], h, hs[i]);
  }
}
