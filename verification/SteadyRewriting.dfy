// When rewriting shared nodes in place gives the plain rewriting all the same. The condition is about the expansions
// alone: it goes through them in the code's order, below each selection set only the first time it is met.
module SteadyRewriting {
  import opened Wrappers
  import opened SyntaxNodes
  import opened RemovedPaths
  import opened SharedGraph
  import opened ExpandedShape
  import opened PathRewriter

  /** For each selection set met so far, the path it stood at then. */
  type Met = map<Selection, Path>

  /** Goes through an expansion. None when a selection set is met again that is to be rewritten differently this time,
      or a field that had been left without selections. */
  ghost function Walk(m: Met, h: Expansion, parent: Path, removed: set<string>): Option<Met>
    decreases h, 0
  {
    match h
    case Done => Some(m)
    case Sel(s, sub, rest) =>
      var one :- WalkOne(m, s, sub, parent, removed);
      Walk(one, rest, parent, removed)
  }

  ghost function WalkOne(m: Met, s: Selection, sub: Expansion, parent: Path, removed: set<string>): Option<Met>
    decreases sub, 2
  {
    match s
    case FieldSelection(n) =>
      if ShouldRemove(parent + [n.name], removed) || sub.Done? then Some(m)
      else WalkSet(m, s, sub, parent + [n.name], removed)
    case InlineSelection(n) => WalkSet(m, s, sub, parent, removed)
    case SpreadSelection(n) => Walk(m, sub, parent, removed)
  }

  ghost function WalkSet(m: Met, s: Selection, sub: Expansion, path: Path, removed: set<string>): Option<Met>
    decreases sub, 1
  {
    if s in m then if MetAgain(m, s, sub, path, removed) then Some(m) else None
    else
      var below :- Walk(m, sub, path, removed);
      Some(below[s := path])
  }

  /** Met again, the selection set is rewritten as before, and is not that of a field left without selections. */
  ghost predicate MetAgain(m: Met, s: Selection, sub: Expansion, path: Path, removed: set<string>)
    requires s in m
  {
    && Rewritten(sub, m[s], removed) == Rewritten(sub, path, removed)
    && (s.FieldSelection? ==> Rewritten(sub, path, removed).Sel?)
  }

  lemma {:induction false} WalkAdds(m: Met, h: Expansion, parent: Path, removed: set<string>)
    requires Walk(m, h, parent, removed).Some?
    ensures var m' := Walk(m, h, parent, removed).value;
      m'.Keys <= m.Keys + Members(h) && forall s <- m :: s in m' && m'[s] == m[s]
    decreases h, 0
  {
    if h.Sel? {
      WalkOneAdds(m, h.s, h.sub, parent, removed);
      WalkAdds(WalkOne(m, h.s, h.sub, parent, removed).value, h.rest, parent, removed);
    }
  }

  lemma {:induction false} WalkOneAdds(m: Met, s: Selection, sub: Expansion, parent: Path, removed: set<string>)
    requires WalkOne(m, s, sub, parent, removed).Some?
    ensures var m' := WalkOne(m, s, sub, parent, removed).value;
      m'.Keys <= m.Keys + {s} + Members(sub) && forall t <- m :: t in m' && m'[t] == m[t]
    decreases sub, 2
  {
    match s {
      case FieldSelection(n) =>
        if !ShouldRemove(parent + [n.name], removed) && sub.Sel? && s !in m {
          WalkAdds(m, sub, parent + [n.name], removed);
        }
      case InlineSelection(n) =>
        if s !in m {
          WalkAdds(m, sub, parent, removed);
        }
      case SpreadSelection(n) => WalkAdds(m, sub, parent, removed);
    }
  }

  // ------------------------------------------------------------------ rewriting what is rewritten

  lemma {:induction false} RewrittenTwice(h: Expansion, parent: Path, removed: set<string>)
    ensures Rewritten(Rewritten(h, parent, removed), parent, removed) == Rewritten(h, parent, removed)
    decreases h, 0
  {
    if h.Sel? {
      var one := RewrittenOne(h.s, h.sub, parent, removed);
      RewrittenOneTwice(h.s, h.sub, parent, removed);
      RewrittenTwice(h.rest, parent, removed);
      RewrittenConcat(one, Rewritten(h.rest, parent, removed), parent, removed);
    }
  }

  lemma {:induction false} RewrittenOneTwice(s: Selection, sub: Expansion, parent: Path, removed: set<string>)
    ensures Rewritten(RewrittenOne(s, sub, parent, removed), parent, removed) == RewrittenOne(s, sub, parent, removed)
    decreases sub, 1
  {
    var one := RewrittenOne(s, sub, parent, removed);
    match s {
      case FieldSelection(n) =>
        RewrittenTwice(sub, parent + [n.name], removed);
        if one.Sel? {
          ConcatDone(RewrittenOne(s, one.sub, parent, removed));
        }
      case InlineSelection(n) =>
        RewrittenTwice(sub, parent, removed);
        if one.Sel? {
          ConcatDone(RewrittenOne(s, one.sub, parent, removed));
        }
      case SpreadSelection(n) => RewrittenTwice(sub, parent, removed);
    }
  }

  ghost function Weight(h: Expansion): nat {
    if h.Done? then 0 else 1 + Weight(h.sub) + Weight(h.rest)
  }

  lemma {:induction false} WeightConcat(a: Expansion, b: Expansion)
    ensures Weight(Concat(a, b)) == Weight(a) + Weight(b)
  {
    if a.Sel? {
      WeightConcat(a.rest, b);
    }
  }

  /** Rewriting makes nothing bigger, and leaves no spread at the top. */
  lemma {:induction false} RewrittenIsSmaller(h: Expansion, parent: Path, removed: set<string>)
    ensures var r := Rewritten(h, parent, removed); Weight(r) <= Weight(h) && (r.Sel? ==> !r.s.SpreadSelection?)
  {
    if h.Sel? {
      var one := RewrittenOne(h.s, h.sub, parent, removed);
      RewrittenIsSmaller(h.rest, parent, removed);
      match h.s {
        case FieldSelection(n) => RewrittenIsSmaller(h.sub, parent + [n.name], removed);
        case _ => RewrittenIsSmaller(h.sub, parent, removed);
      }
      WeightConcat(one, Rewritten(h.rest, parent, removed));
    }
  }

  /** What is rewritten to itself is so selection by selection. */
  lemma FixedSplit(h: Expansion, parent: Path, removed: set<string>)
    requires h.Sel? && Rewritten(h, parent, removed) == h
    ensures !h.s.SpreadSelection? && RewrittenOne(h.s, h.sub, parent, removed) == Sel(h.s, h.sub, Done)
    ensures Rewritten(h.rest, parent, removed) == h.rest
  {
    RewrittenIsSmaller(h, parent, removed);
    var one, rest := RewrittenOne(h.s, h.sub, parent, removed), Rewritten(h.rest, parent, removed);
    if one.Done? {
      RewrittenIsSmaller(h.rest, parent, removed);
      assert false;
    }
    assert Concat(one, rest) == Sel(one.s, one.sub, rest);
  }

  // ------------------------------------------------------------------ taking a field for a leaf

  /** The code takes a field without selections for a leaf. No call does so with a field that had some in g0. */
  ghost predicate TakesNoneForLeaf(g0: Graph, g: Graph, rank: Ranks, bound: nat, sels: seq<Selection>, parent: Path,
      removed: set<string>)
    requires Wired(rank, g) && Below(rank, sels, bound)
    decreases bound, 1, |sels|
  {
    sels == [] ||
    (assert sels[0] in sels;
     && TakesOneForNoLeaf(g0, g, rank, bound, sels[0], parent, removed)
     && TakesNoneForLeaf(g0, RewriteOne(g, rank, bound, sels[0], parent, removed).graph, rank, bound, sels[1..], parent,
                         removed))
  }

  ghost predicate TakesOneForNoLeaf(g0: Graph, g: Graph, rank: Ranks, bound: nat, s: Selection, parent: Path,
      removed: set<string>)
    requires Wired(rank, g) && s in rank && rank[s] < bound
    decreases bound, 0
  {
    match s
    case FieldSelection(n) =>
      if ShouldRemove(parent + [n.name], removed) then true
      else if g[s] == [] then IsLeaf(g0, s)
      else TakesNoneForLeaf(g0, g, rank, rank[s], g[s], parent + [n.name], removed)
    case _ => TakesNoneForLeaf(g0, g, rank, rank[s], g[s], parent, removed)
  }

  ghost predicate IsLeaf(g0: Graph, s: Selection) {
    s.FieldSelection? && s in g0 && g0[s] == []
  }

  /** Fields without selections had none. */
  ghost predicate TrueLeaves(g0: Graph, h: Expansion) {
    match h
    case Done => true
    case Sel(s, sub, rest) =>
      (s.FieldSelection? && sub.Done? ==> IsLeaf(g0, s)) && TrueLeaves(g0, sub) && TrueLeaves(g0, rest)
  }

  lemma {:induction false} TrueLeavesConcat(g0: Graph, a: Expansion, b: Expansion)
    ensures TrueLeaves(g0, Concat(a, b)) <==> TrueLeaves(g0, a) && TrueLeaves(g0, b)
  {
    if a.Sel? {
      TrueLeavesConcat(g0, a.rest, b);
    }
  }

  lemma {:induction false} RewrittenTrueLeaves(g0: Graph, sels: seq<Selection>, h: Expansion, parent: Path,
      removed: set<string>)
    requires Expands(g0, sels, h)
    ensures TrueLeaves(g0, Rewritten(h, parent, removed))
    decreases h
  {
    if h.Sel? {
      RewrittenTrueLeaves(g0, sels[1..], h.rest, parent, removed);
      match h.s {
        case FieldSelection(n) => RewrittenTrueLeaves(g0, g0[h.s], h.sub, parent + [n.name], removed);
        case _ => RewrittenTrueLeaves(g0, g0[h.s], h.sub, parent, removed);
      }
      TrueLeavesConcat(g0, RewrittenOne(h.s, h.sub, parent, removed), Rewritten(h.rest, parent, removed));
    }
  }

  /** Going again through what is rewritten to itself changes nothing. */
  lemma {:induction false} FixedRewriting(g0: Graph, g: Graph, rank: Ranks, bound: nat, sels: seq<Selection>,
      e: Expansion, parent: Path, removed: set<string>)
    requires Wired(rank, g) && Below(rank, sels, bound) && Expands(g, sels, e) && Rewritten(e, parent, removed) == e
    requires TrueLeaves(g0, e)
    ensures RewriteAll(g, rank, bound, sels, parent, removed) == Rewriting(g, sels)
    ensures TakesNoneForLeaf(g0, g, rank, bound, sels, parent, removed)
    decreases e, 1
  {
    if e.Sel? {
      assert e.s in sels;
      FixedSplit(e, parent, removed);
      FixedOne(g0, g, rank, bound, e.s, e.sub, parent, removed);
      FixedRewriting(g0, g, rank, bound, sels[1..], e.rest, parent, removed);
      HeadAndTail(sels);
    }
  }

  lemma {:induction false} FixedOne(g0: Graph, g: Graph, rank: Ranks, bound: nat, s: Selection, sub: Expansion,
      parent: Path, removed: set<string>)
    requires Wired(rank, g) && s in rank && rank[s] < bound && Expands(g, g[s], sub) && !s.SpreadSelection?
    requires RewrittenOne(s, sub, parent, removed) == Sel(s, sub, Done) && TrueLeaves(g0, Sel(s, sub, Done))
    ensures RewriteOne(g, rank, bound, s, parent, removed) == Rewriting(g, [s])
    ensures TakesOneForNoLeaf(g0, g, rank, bound, s, parent, removed)
    decreases sub, 2
  {
    match s {
      case FieldSelection(n) =>
        if sub.Sel? {
          FixedRewriting(g0, g, rank, rank[s], g[s], sub, parent + [n.name], removed);
          StoredAgain(g, s);
        }
      case InlineSelection(n) =>
        FixedRewriting(g0, g, rank, rank[s], g[s], sub, parent, removed);
        StoredAgain(g, s);
    }
  }

  // ------------------------------------------------------------------ the graph, as long as the walk goes on

  /** Selections the rewriting no longer changes, as long as the walk goes on. */
  ghost predicate AllFixed(m: Met, g0: Graph, e: Expansion) {
    forall u <- Members(e) :: u in m || IsLeaf(g0, u)
  }

  ghost predicate SameFixed(m: Met, g0: Graph, g: Graph, g': Graph) {
    forall u <- g | u in m || IsLeaf(g0, u) :: u in g' && g'[u] == g[u]
  }

  lemma {:induction false} FixedStays(m: Met, g0: Graph, g: Graph, g': Graph, sels: seq<Selection>, e: Expansion)
    requires Expands(g, sels, e) && AllFixed(m, g0, e) && SameFixed(m, g0, g, g')
    ensures Expands(g', sels, e)
    decreases e
  {
    if e.Sel? {
      assert e.s in Members(e);
      FixedStays(m, g0, g, g', g[e.s], e.sub);
      FixedStays(m, g0, g, g', sels[1..], e.rest);
    }
  }

  lemma FixedConcat(m: Met, g0: Graph, a: Expansion, b: Expansion)
    requires AllFixed(m, g0, a) && AllFixed(m, g0, b)
    ensures AllFixed(m, g0, Concat(a, b))
  {
    MembersConcat(a, b);
  }

  /** The selection set has been rewritten plainly, for where it was met first. */
  ghost predicate MetAt(g0: Graph, rank: Ranks, g: Graph, m: Met, removed: set<string>, s: Selection)
    requires Wired(rank, g0) && s in m && s in g && s in g0
  {
    var e := Rewritten(Subtree(rank, g0, s), m[s], removed);
    Expands(g, g[s], e) && AllFixed(m, g0, e)
  }

  /** g is g0 with the selection sets met so far rewritten plainly. */
  ghost predicate Agrees(g0: Graph, rank: Ranks, g: Graph, m: Met, removed: set<string>)
    requires Wired(rank, g0)
  {
    var held :=
      && g.Keys == g0.Keys && (forall s <- g0 | s !in m :: g[s] == g0[s])
      && (forall s <- m :: s in g0 && !s.SpreadSelection? && !IsLeaf(g0, s))
      && forall s <- m :: MetAt(g0, rank, g, m, removed, s);
    held
  }

  /** What a call has done: r stands for e. */
  ghost predicate Plainly(g0: Graph, rank: Ranks, g: Graph, m: Met, removed: set<string>, r: Rewriting, m': Met,
      e: Expansion, touched: set<Selection>)
    requires Wired(rank, g0)
  {
    var held :=
      && Agrees(g0, rank, r.graph, m', removed) && (forall s <- m :: s in m' && m'[s] == m[s])
      && SameFixed(m, g0, g, r.graph) && Untouched(g, r.graph, touched)
      && Expands(r.graph, r.out, e) && AllFixed(m', g0, e);
    held
  }

  lemma PlainlyNext(g0: Graph, rank: Ranks, g: Graph, m: Met, removed: set<string>, a: Rewriting, m1: Met,
      e1: Expansion, t1: set<Selection>, b: Rewriting, m2: Met, e2: Expansion, t2: set<Selection>)
    requires Wired(rank, g0)
    requires Plainly(g0, rank, g, m, removed, a, m1, e1, t1) && Plainly(g0, rank, a.graph, m1, removed, b, m2, e2, t2)
    ensures Plainly(g0, rank, g, m, removed, Rewriting(b.graph, a.out + b.out), m2, Concat(e1, e2), t1 + t2)
  {
    FixedStays(m1, g0, a.graph, b.graph, a.out, e1);
    ExpandsConcat(b.graph, a.out, e1, b.out, e2);
    FixedConcat(m2, g0, e1, e2);
  }

  lemma PlainlyNone(g0: Graph, rank: Ranks, g: Graph, m: Met, removed: set<string>, touched: set<Selection>)
    requires Wired(rank, g0) && Agrees(g0, rank, g, m, removed)
    ensures Plainly(g0, rank, g, m, removed, Rewriting(g, []), m, Done, touched)
  {
  }

  /** A selection that is kept with what is below it, and nothing is changed. */
  lemma PlainlyKept(g0: Graph, rank: Ranks, g: Graph, m: Met, removed: set<string>, s: Selection, sub: Expansion,
      touched: set<Selection>)
    requires Wired(rank, g0) && Agrees(g0, rank, g, m, removed) && s in g && Expands(g, g[s], sub)
      && AllFixed(m, g0, sub)
    requires s in m || IsLeaf(g0, s)
    ensures Plainly(g0, rank, g, m, removed, Rewriting(g, [s]), m, Sel(s, sub, Done), touched)
  {
    ExpandsAlone(g, s, sub);
    assert AllFixed(m, g0, Sel(s, sub, Done));
  }

  lemma ExpandsAlone(g: Graph, s: Selection, sub: Expansion)
    requires s in g && Expands(g, g[s], sub)
    ensures Expands(g, [s], Sel(s, sub, Done)) && Members(Sel(s, sub, Done)) == {s} + Members(sub)
  {
    assert [s][1..] == [];
  }

  /** The rewritten selection set is stored at its node, which has not been met before. */
  lemma AgreesStored(g0: Graph, rank: Ranks, g: Graph, m: Met, removed: set<string>, s: Selection, sub: Expansion,
      path: Path, below: Rewriting, m1: Met, touched: set<Selection>)
    requires Wired(rank, g0)
    requires Plainly(g0, rank, g, m, removed, below, m1, Rewritten(sub, path, removed), touched)
    requires s in g0 && s !in m1 && !s.SpreadSelection? && !IsLeaf(g0, s) && Expands(g0, g0[s], sub)
    ensures var g', m2 := below.graph[s := below.out], m1[s := path];
      && Agrees(g0, rank, g', m2, removed) && SameFixed(m1, g0, below.graph, g')
      && Expands(g', below.out, Rewritten(sub, path, removed)) && AllFixed(m2, g0, Rewritten(sub, path, removed))
  {
    var g', m2 := below.graph[s := below.out], m1[s := path];
    FixedStays(m1, g0, below.graph, g', below.out, Rewritten(sub, path, removed));
    ExpansionUnique(g0, g0[s], sub, Subtree(rank, g0, s));
    forall t <- m2
      ensures MetAt(g0, rank, g', m2, removed, t)
    {
      if t != s {
        assert MetAt(g0, rank, below.graph, m1, removed, t);
        FixedStays(m1, g0, below.graph, g', below.graph[t], Rewritten(Subtree(rank, g0, t), m1[t], removed));
      }
    }
  }

  lemma PlainlyStored(g0: Graph, rank: Ranks, g: Graph, m: Met, removed: set<string>, s: Selection, sub: Expansion,
      path: Path, below: Rewriting, m1: Met)
    requires Wired(rank, g0)
    requires Plainly(g0, rank, g, m, removed, below, m1, Rewritten(sub, path, removed), Members(sub))
    requires s in g0 && s !in m1 && !s.SpreadSelection? && !IsLeaf(g0, s) && Expands(g0, g0[s], sub)
    ensures var g', e := below.graph[s := below.out], Rewritten(sub, path, removed);
      Plainly(g0, rank, g, m, removed, Rewriting(g', if below.out == [] then [] else [s]), m1[s := path],
        if e.Done? then Done else Sel(s, e, Done), Members(Sel(s, sub, Done)))
  {
    var g', e := below.graph[s := below.out], Rewritten(sub, path, removed);
    AgreesStored(g0, rank, g, m, removed, s, sub, path, below, m1, Members(sub));
    Unmet(g0, g, m, s, below.graph, below.out, Members(sub), m1);
    KeptIfFilled(g0, g', s, e, m1[s := path]);
    assert Members(Sel(s, sub, Done)) == {s} + Members(sub);
  }

  lemma KeptIfFilled(g0: Graph, g: Graph, s: Selection, e: Expansion, m: Met)
    requires s in g && Expands(g, g[s], e) && AllFixed(m, g0, e) && s in m
    ensures var kept := if e.Done? then Done else Sel(s, e, Done);
      Expands(g, if g[s] == [] then [] else [s], kept) && AllFixed(m, g0, kept)
  {
    if e.Sel? {
      ExpandsAlone(g, s, e);
    }
  }

  lemma Unmet(g0: Graph, g: Graph, m: Met, s: Selection, g': Graph, out: seq<Selection>, touched: set<Selection>,
      m1: Met)
    requires SameFixed(m, g0, g, g') && Untouched(g, g', touched) && s !in m1 && !IsLeaf(g0, s)
    requires forall t <- m :: t in m1
    ensures SameFixed(m, g0, g, g'[s := out]) && Untouched(g, g'[s := out], {s} + touched)
  {
  }

  // ------------------------------------------------------------------ a walk to the end: plainly rewritten

  /** Main lemma, one way: where the walk gets through, the call gives the plain rewriting, and takes no field for a
      leaf that is not one. */
  lemma {:induction false} WalkAgrees(g0: Graph, rank: Ranks, g: Graph, bound: nat, sels: seq<Selection>, h: Expansion,
      m: Met, parent: Path, removed: set<string>)
    requires Wired(rank, g0) && Wired(rank, g) && Below(rank, sels, bound) && Expands(g0, sels, h)
    requires Agrees(g0, rank, g, m, removed) && Walk(m, h, parent, removed).Some?
    ensures Plainly(g0, rank, g, m, removed, RewriteAll(g, rank, bound, sels, parent, removed),
      Walk(m, h, parent, removed).value, Rewritten(h, parent, removed), Members(h))
    ensures TakesNoneForLeaf(g0, g, rank, bound, sels, parent, removed)
    decreases h, 0
  {
    if h.Done? {
      PlainlyNone(g0, rank, g, m, removed, {});
    } else {
      var s := h.s;
      assert s in sels;
      WalkOneAgrees(g0, rank, g, bound, s, h.sub, m, parent, removed);
      var a, m1 := RewriteOne(g, rank, bound, s, parent, removed), WalkOne(m, s, h.sub, parent, removed).value;
      WalkAgrees(g0, rank, a.graph, bound, sels[1..], h.rest, m1, parent, removed);
      var b := RewriteAll(a.graph, rank, bound, sels[1..], parent, removed);
      PlainlyNext(g0, rank, g, m, removed, a, m1, RewrittenOne(s, h.sub, parent, removed), Members(Sel(s, h.sub, Done)),
        b, Walk(m1, h.rest, parent, removed).value, Rewritten(h.rest, parent, removed), Members(h.rest));
      MembersFirst(h);
    }
  }

  lemma {:induction false} WalkOneAgrees(g0: Graph, rank: Ranks, g: Graph, bound: nat, s: Selection, sub: Expansion,
      m: Met, parent: Path, removed: set<string>)
    requires Wired(rank, g0) && Wired(rank, g) && s in rank && rank[s] < bound && Expands(g0, g0[s], sub)
    requires Agrees(g0, rank, g, m, removed) && WalkOne(m, s, sub, parent, removed).Some?
    ensures Plainly(g0, rank, g, m, removed, RewriteOne(g, rank, bound, s, parent, removed),
      WalkOne(m, s, sub, parent, removed).value, RewrittenOne(s, sub, parent, removed), Members(Sel(s, sub, Done)))
    ensures TakesOneForNoLeaf(g0, g, rank, bound, s, parent, removed)
    decreases sub, 2
  {
    match s {
      case FieldSelection(n) =>
        if ShouldRemove(parent + [n.name], removed) {
          PlainlyNone(g0, rank, g, m, removed, Members(Sel(s, sub, Done)));
        } else if sub.Done? {
          PlainlyKept(g0, rank, g, m, removed, s, Done, Members(Sel(s, sub, Done)));
        } else {
          WalkSetAgrees(g0, rank, g, bound, s, sub, m, parent + [n.name], parent, removed);
        }
      case InlineSelection(n) => WalkSetAgrees(g0, rank, g, bound, s, sub, m, parent, parent, removed);
      case SpreadSelection(n) =>
        WalkAgrees(g0, rank, g, rank[s], g[s], sub, m, parent, removed);
        var r := RewriteAll(g, rank, rank[s], g[s], parent, removed);
        PlainlyMore(g0, rank, g, m, removed, r, Walk(m, sub, parent, removed).value, Rewritten(sub, parent, removed),
          Members(sub), Members(Sel(s, sub, Done)));
    }
  }

  lemma PlainlyMore(g0: Graph, rank: Ranks, g: Graph, m: Met, removed: set<string>, r: Rewriting, m': Met,
      e: Expansion, touched: set<Selection>, more: set<Selection>)
    requires Wired(rank, g0) && Plainly(g0, rank, g, m, removed, r, m', e, touched) && touched <= more
    ensures Plainly(g0, rank, g, m, removed, r, m', e, more)
  {
  }

  /** The path a selection set stands at, when its selection stands at the parent. */
  ghost predicate StandsAt(s: Selection, parent: Path, path: Path) {
    match s
    case FieldSelection(n) => path == parent + [n.name]
    case _ => path == parent
  }

  lemma {:induction false} WalkSetAgrees(g0: Graph, rank: Ranks, g: Graph, bound: nat, s: Selection, sub: Expansion,
      m: Met, path: Path, parent: Path, removed: set<string>)
    requires Wired(rank, g0) && Wired(rank, g) && s in rank && rank[s] < bound && Expands(g0, g0[s], sub)
    requires !s.SpreadSelection? && StandsAt(s, parent, path)
    requires s.FieldSelection? ==> sub.Sel? && !ShouldRemove(path, removed)
    requires Agrees(g0, rank, g, m, removed) && WalkSet(m, s, sub, path, removed).Some?
    ensures var e := Rewritten(sub, path, removed);
      Plainly(g0, rank, g, m, removed, RewriteOne(g, rank, bound, s, parent, removed),
        WalkSet(m, s, sub, path, removed).value, if e.Done? then Done else Sel(s, e, Done), Members(Sel(s, sub, Done)))
    ensures TakesOneForNoLeaf(g0, g, rank, bound, s, parent, removed)
    decreases sub, 1
  {
    if s in m {
      SetAgainAgrees(g0, rank, g, bound, s, sub, m, path, parent, removed);
    } else {
      WalkAgrees(g0, rank, g, rank[s], g[s], sub, m, path, removed);
      WalkAdds(m, sub, path, removed);
      MembersBelow(g0, rank, g0[s], sub, rank[s]);
      PlainlyStored(g0, rank, g, m, removed, s, sub, path, RewriteAll(g, rank, rank[s], g[s], path, removed),
        Walk(m, sub, path, removed).value);
    }
  }

  lemma SetAgainAgrees(g0: Graph, rank: Ranks, g: Graph, bound: nat, s: Selection, sub: Expansion, m: Met, path: Path,
      parent: Path, removed: set<string>)
    requires Wired(rank, g0) && Wired(rank, g) && s in rank && rank[s] < bound && Expands(g0, g0[s], sub)
    requires !s.SpreadSelection? && StandsAt(s, parent, path)
    requires s.FieldSelection? ==> sub.Sel? && !ShouldRemove(path, removed)
    requires Agrees(g0, rank, g, m, removed) && s in m && MetAgain(m, s, sub, path, removed)
    ensures var e := Rewritten(sub, path, removed);
      Plainly(g0, rank, g, m, removed, RewriteOne(g, rank, bound, s, parent, removed), m,
        if e.Done? then Done else Sel(s, e, Done), Members(Sel(s, sub, Done)))
    ensures TakesOneForNoLeaf(g0, g, rank, bound, s, parent, removed)
  {
    var e := Rewritten(sub, path, removed);
    ExpansionUnique(g0, g0[s], sub, Subtree(rank, g0, s));
    assert MetAt(g0, rank, g, m, removed, s);
    RewrittenTwice(sub, path, removed);
    RewrittenTrueLeaves(g0, g0[s], sub, path, removed);
    FixedRewriting(g0, g, rank, rank[s], g[s], e, path, removed);
    StoredAgain(g, s);
    if e.Done? {
      PlainlyNone(g0, rank, g, m, removed, Members(Sel(s, sub, Done)));
    } else {
      PlainlyKept(g0, rank, g, m, removed, s, e, Members(Sel(s, sub, Done)));
    }
  }

  // ------------------------------------------------------------------ a walk that stops: something is lost

  /** The selections of an expansion, each with what is below it. */
  ghost function Occurrences(h: Expansion): set<(Selection, Expansion)> {
    match h
    case Done => {}
    case Sel(s, sub, rest) => {(s, sub)} + Occurrences(sub) + Occurrences(rest)
  }

  lemma {:induction false} OccurrencesConcat(a: Expansion, b: Expansion)
    ensures Occurrences(Concat(a, b)) == Occurrences(a) + Occurrences(b)
  {
    if a.Sel? {
      OccurrencesConcat(a.rest, b);
    }
  }

  /** Some selection that ought to have a leaf path below it does not. */
  ghost predicate Broken(g: Graph, wanted: set<(Selection, Expansion)>) {
    exists o <- wanted :: BrokenAt(g, o.0, o.1)
  }

  ghost predicate BrokenAt(g: Graph, s: Selection, e: Expansion) {
    s in g && exists path <- Leaves(e) :: !HasPath(g, g[s], path)
  }

  /** What is lost stays lost. */
  lemma BrokenStays(g: Graph, g': Graph, rank: Ranks, bodies: Bodies, wanted: set<(Selection, Expansion)>)
    requires Wired(rank, g) && Evolved(g, g', bodies) && Broken(g, wanted)
    ensures Broken(g', wanted)
  {
    var o :| o in wanted && BrokenAt(g, o.0, o.1);
    var path :| path in Leaves(o.1) && !HasPath(g, g[o.0], path);
    if HasPath(g', g'[o.0], path) {
      PathWasThere(g, g', rank, bodies, rank[o.0], g[o.0], g'[o.0], path);
      assert false;
    }
    assert BrokenAt(g', o.0, o.1);
  }

  lemma {:induction false} LeavesAreReached(g: Graph, sels: seq<Selection>, h: Expansion, path: Path)
    requires Expands(g, sels, h) && path in Leaves(h)
    ensures HasPath(g, sels, path)
    decreases h, 0
  {
    var s := h.s;
    if path in Leaves(h.rest) {
      LeavesAreReached(g, sels[1..], h.rest, path);
      var k: nat :| ReachesFrom(k, g, sels[1..], path);
      assert forall t <- sels[1..] :: t in sels;
      assert ReachesFrom(k, g, sels, path);
    } else {
      var k := OneReached(g, s, h.sub, path);
      assert s in sels && ReachesFrom(k, g, sels, path);
    }
  }

  lemma {:induction false} OneReached(g: Graph, s: Selection, sub: Expansion, path: Path) returns (k: nat)
    requires s in g && Expands(g, g[s], sub) && path in Leaves(Sel(s, sub, Done))
    ensures Reaches(k, g, s, path)
    decreases sub, 1
  {
    match s {
      case FieldSelection(n) =>
        if sub.Done? {
          k := 1;
        } else {
          PrefixedHas(n.name, Leaves(sub), path);
          LeavesAreReached(g, g[s], sub, path[1..]);
          var l: nat :| ReachesFrom(l, g, g[s], path[1..]);
          k := l + 1;
        }
      case _ =>
        LeavesAreReached(g, g[s], sub, path);
        var l: nat :| ReachesFrom(l, g, g[s], path);
        k := l + 1;
    }
  }

  lemma {:induction false} PrefixedHas(name: string, paths: seq<Path>, path: Path)
    requires path in Prefixed(name, paths)
    ensures path != [] && path[0] == name && path[1..] in paths
  {
    if path != [name] + paths[0] {
      PrefixedHas(name, paths[1..], path);
    }
  }

  lemma {:induction false} HasPrefixed(name: string, paths: seq<Path>, path: Path)
    requires path in paths
    ensures [name] + path in Prefixed(name, paths)
  {
    if path != paths[0] {
      HasPrefixed(name, paths[1..], path);
    }
  }

  /** Nothing broken where everything stands as it ought to. */
  lemma {:induction false} StandingIsNotBroken(g: Graph, sels: seq<Selection>, h: Expansion, s: Selection, e: Expansion)
    requires Expands(g, sels, h) && (s, e) in Occurrences(h)
    ensures !BrokenAt(g, s, e)
    decreases h
  {
    if s == h.s && e == h.sub {
      forall path <- Leaves(e)
        ensures HasPath(g, g[s], path)
      {
        LeavesAreReached(g, g[s], e, path);
      }
    } else if (s, e) in Occurrences(h.sub) {
      StandingIsNotBroken(g, g[h.s], h.sub, s, e);
    } else {
      StandingIsNotBroken(g, sels[1..], h.rest, s, e);
    }
  }

  /** What is rewritten differs from path to path only as the leaf paths lost do. */
  lemma {:induction false} SameLossesSameRewriting(h: Expansion, p: Path, q: Path, removed: set<string>)
    requires forall path <- Leaves(h) :: Lost(p, path, removed) <==> Lost(q, path, removed)
    ensures Rewritten(h, p, removed) == Rewritten(h, q, removed)
    decreases h, 0
  {
    if h.Sel? {
      assert Leaves(h) == Leaves(Sel(h.s, h.sub, Done)) + Leaves(h.rest);
      SameLossesSameOne(h.s, h.sub, p, q, removed);
      SameLossesSameRewriting(h.rest, p, q, removed);
    }
  }

  lemma {:induction false} SameLossesSameOne(s: Selection, sub: Expansion, p: Path, q: Path, removed: set<string>)
    requires forall path <- Leaves(Sel(s, sub, Done)) :: Lost(p, path, removed) <==> Lost(q, path, removed)
    ensures RewrittenOne(s, sub, p, removed) == RewrittenOne(s, sub, q, removed)
    decreases sub, 2
  {
    match s {
      case FieldSelection(n) =>
        if sub.Done? {
          assert [n.name] in Leaves(Sel(s, sub, Done)) && [n.name][1..] == [];
          assert Lost(p, [n.name], removed) == ShouldRemove(p + [n.name], removed);
          assert Lost(q, [n.name], removed) == ShouldRemove(q + [n.name], removed);
        } else {
          forall path <- Leaves(sub)
            ensures (ShouldRemove(p + [n.name], removed) || Lost(p + [n.name], path, removed))
              <==> (ShouldRemove(q + [n.name], removed) || Lost(q + [n.name], path, removed))
          {
            HasPrefixed(n.name, Leaves(sub), path);
            var longer := [n.name] + path;
            assert longer in Leaves(Sel(s, sub, Done)) && longer[0] == n.name && longer[1..] == path;
            assert Lost(p, longer, removed) <==> Lost(q, longer, removed);
          }
          FieldSame(n, sub, p, q, removed);
        }
      case _ => SameLossesSameRewriting(sub, p, q, removed);
    }
  }

  lemma {:induction false} FieldSame(n: FieldNode, sub: Expansion, p: Path, q: Path, removed: set<string>)
    requires sub.Sel? && forall path <- Leaves(sub) ::
      (ShouldRemove(p + [n.name], removed) || Lost(p + [n.name], path, removed))
      <==> (ShouldRemove(q + [n.name], removed) || Lost(q + [n.name], path, removed))
    ensures RewrittenOne(FieldSelection(n), sub, p, removed) == RewrittenOne(FieldSelection(n), sub, q, removed)
    decreases sub, 1
  {
    if ShouldRemove(p + [n.name], removed) {
      if !ShouldRemove(q + [n.name], removed) {
        AllLostNothingLeft(sub, q + [n.name], removed);
      }
    } else if ShouldRemove(q + [n.name], removed) {
      AllLostNothingLeft(sub, p + [n.name], removed);
    } else {
      SameLossesSameRewriting(sub, p + [n.name], q + [n.name], removed);
    }
  }

  lemma AllLostNothingLeft(h: Expansion, parent: Path, removed: set<string>)
    requires forall path <- Leaves(h) :: Lost(parent, path, removed)
    ensures Rewritten(h, parent, removed).Done?
  {
    RewrittenKeeps(h, parent, removed);
    RewrittenLeavesNothingEmpty(h, parent, removed);
    KeepsNothing(parent, Leaves(h), removed);
  }

  lemma {:induction false} KeepsNothing(parent: Path, paths: seq<Path>, removed: set<string>)
    requires forall path <- paths :: Lost(parent, path, removed)
    ensures Keep(parent, paths, removed) == []
  {
    if paths != [] {
      assert paths[0] in paths && forall path <- paths[1..] :: path in paths;
      KeepsNothing(parent, paths[1..], removed);
    }
  }

  lemma {:induction false} KeepHas(parent: Path, paths: seq<Path>, removed: set<string>)
    ensures forall path :: path in Keep(parent, paths, removed) <==> path in paths && !Lost(parent, path, removed)
  {
    if paths != [] {
      KeepHas(parent, paths[1..], removed);
      assert paths == [paths[0]] + paths[1..];
    }
  }

  /** What was met is wanted as it was met then. */
  ghost predicate Recorded(g0: Graph, rank: Ranks, m: Met, removed: set<string>, wanted: set<(Selection, Expansion)>)
    requires Wired(rank, g0)
  {
    forall s <- m :: s in g0 && var e := Rewritten(Subtree(rank, g0, s), m[s], removed); e.Sel? ==> (s, e) in wanted
  }

  /** All that the plain rewriting of the expansion holds is wanted. */
  ghost predicate Wants(wanted: set<(Selection, Expansion)>, e: Expansion) {
    Occurrences(e) <= wanted
  }

  lemma WantsFirst(wanted: set<(Selection, Expansion)>, h: Expansion, parent: Path, removed: set<string>)
    requires h.Sel? && Wants(wanted, Rewritten(h, parent, removed))
    ensures Wants(wanted, RewrittenOne(h.s, h.sub, parent, removed))
      && Wants(wanted, Rewritten(h.rest, parent, removed))
  {
    OccurrencesConcat(RewrittenOne(h.s, h.sub, parent, removed), Rewritten(h.rest, parent, removed));
  }

  lemma {:induction false} WalkRecords(g0: Graph, rank: Ranks, sels: seq<Selection>, m: Met, h: Expansion, parent: Path,
      removed: set<string>, wanted: set<(Selection, Expansion)>)
    requires Wired(rank, g0) && Expands(g0, sels, h) && Recorded(g0, rank, m, removed, wanted)
    requires Wants(wanted, Rewritten(h, parent, removed)) && Walk(m, h, parent, removed).Some?
    ensures Recorded(g0, rank, Walk(m, h, parent, removed).value, removed, wanted)
    decreases h, 0
  {
    if h.Sel? {
      WantsFirst(wanted, h, parent, removed);
      WalkOneRecords(g0, rank, m, h.s, h.sub, parent, removed, wanted);
      WalkRecords(g0, rank, sels[1..], WalkOne(m, h.s, h.sub, parent, removed).value, h.rest, parent, removed, wanted);
    }
  }

  lemma {:induction false} WalkOneRecords(g0: Graph, rank: Ranks, m: Met, s: Selection, sub: Expansion, parent: Path,
      removed: set<string>, wanted: set<(Selection, Expansion)>)
    requires Wired(rank, g0) && s in g0 && Expands(g0, g0[s], sub) && Recorded(g0, rank, m, removed, wanted)
    requires Wants(wanted, RewrittenOne(s, sub, parent, removed)) && WalkOne(m, s, sub, parent, removed).Some?
    ensures Recorded(g0, rank, WalkOne(m, s, sub, parent, removed).value, removed, wanted)
    decreases sub, 2
  {
    match s {
      case FieldSelection(n) =>
        if !ShouldRemove(parent + [n.name], removed) && sub.Sel? {
          WalkSetRecords(g0, rank, m, s, sub, parent + [n.name], removed, wanted);
        }
      case InlineSelection(n) => WalkSetRecords(g0, rank, m, s, sub, parent, removed, wanted);
      case SpreadSelection(n) => WalkRecords(g0, rank, g0[s], m, sub, parent, removed, wanted);
    }
  }

  lemma {:induction false} WalkSetRecords(g0: Graph, rank: Ranks, m: Met, s: Selection, sub: Expansion, path: Path,
      removed: set<string>, wanted: set<(Selection, Expansion)>)
    requires Wired(rank, g0) && s in g0 && Expands(g0, g0[s], sub) && Recorded(g0, rank, m, removed, wanted)
    requires var e := Rewritten(sub, path, removed); e.Sel? ==> Wants(wanted, Sel(s, e, Done))
    requires WalkSet(m, s, sub, path, removed).Some?
    ensures Recorded(g0, rank, WalkSet(m, s, sub, path, removed).value, removed, wanted)
    decreases sub, 1
  {
    if s !in m {
      WalkRecords(g0, rank, g0[s], m, sub, path, removed, wanted);
      ExpansionUnique(g0, g0[s], sub, Subtree(rank, g0, s));
      var e := Rewritten(sub, path, removed);
      assert e.Sel? ==> (s, e) in Occurrences(Sel(s, e, Done));
    }
  }

  // ------------------------------------------------------------------ where the walk stops

  /** No field path of what expands to a plain rewriting is lost. */
  lemma PlainPathsNotLost(g: Graph, rank: Ranks, bodies: Bodies, bound: nat, sels: seq<Selection>, g0: Graph,
      sels0: seq<Selection>, h: Expansion, parent: Path, removed: set<string>, path: Path)
    requires Wired(rank, g) && Below(rank, sels, bound) && SpreadsLead(g, bodies) && Expands(g0, sels0, h)
    requires Expands(g, sels, Rewritten(h, parent, removed)) && HasPath(g, sels, path)
    ensures !Lost(parent, path, removed)
  {
    RewrittenTwice(h, parent, removed);
    RewrittenTrueLeaves(g0, sels0, h, parent, removed);
    FixedRewriting(g0, g, rank, bound, sels, Rewritten(h, parent, removed), parent, removed);
    RewriteAllRewrites(g, rank, bodies, bound, sels, parent, removed);
    SparedIsNotLost(g, sels, parent, removed, path);
  }

  /** A selection set met again at a path where it loses something it kept before, or is to keep something it lost. */
  lemma SetBreaks(g0: Graph, rank: Ranks, bodies: Bodies, g: Graph, bound: nat, s: Selection, sub: Expansion, m: Met,
      path: Path, parent: Path, removed: set<string>, wanted: set<(Selection, Expansion)>)
    requires Wired(rank, g0) && Wired(rank, g) && s in rank && rank[s] < bound && Expands(g0, g0[s], sub)
    requires !s.SpreadSelection? && StandsAt(s, parent, path) && SpreadsLead(g, bodies)
    requires s.FieldSelection? ==> sub.Sel? && !ShouldRemove(path, removed)
    requires Agrees(g0, rank, g, m, removed) && Recorded(g0, rank, m, removed, wanted)
    requires var e := Rewritten(sub, path, removed); e.Sel? ==> Wants(wanted, Sel(s, e, Done))
    requires s in m && !MetAgain(m, s, sub, path, removed) && TakesOneForNoLeaf(g0, g, rank, bound, s, parent, removed)
    ensures Broken(RewriteOne(g, rank, bound, s, parent, removed).graph, wanted)
  {
    var e1, e2 := Rewritten(sub, m[s], removed), Rewritten(sub, path, removed);
    ExpansionUnique(g0, g0[s], sub, Subtree(rank, g0, s));
    assert MetAt(g0, rank, g, m, removed, s);
    if e1 != e2 {
      if forall p <- Leaves(sub) :: Lost(m[s], p, removed) <==> Lost(path, p, removed) {
        SameLossesSameRewriting(sub, m[s], path, removed);
        assert false;
      }
      var p :| p in Leaves(sub) && Lost(m[s], p, removed) != Lost(path, p, removed);
      if Lost(m[s], p, removed) {
        LostBefore(g0, rank, bodies, g, bound, s, sub, m[s], path, parent, removed, wanted, p);
      } else {
        LostNow(rank, bodies, g, bound, s, sub, m[s], path, parent, removed, wanted, p);
      }
    }
  }

  lemma LostBefore(g0: Graph, rank: Ranks, bodies: Bodies, g: Graph, bound: nat, s: Selection, sub: Expansion,
      before: Path, path: Path, parent: Path, removed: set<string>, wanted: set<(Selection, Expansion)>, p: Path)
    requires Wired(rank, g) && s in rank && rank[s] < bound && s in g0 && Expands(g0, g0[s], sub)
      && SpreadsLead(g, bodies)
    requires Expands(g, g[s], Rewritten(sub, before, removed))
    requires var e := Rewritten(sub, path, removed); e.Sel? ==> Wants(wanted, Sel(s, e, Done))
    requires p in Leaves(sub) && Lost(before, p, removed) && !Lost(path, p, removed)
    ensures Broken(RewriteOne(g, rank, bound, s, parent, removed).graph, wanted)
  {
    var e := Rewritten(sub, path, removed);
    RewrittenKeeps(sub, path, removed);
    KeepHas(path, Leaves(sub), removed);
    assert p in Leaves(e) && (s, e) in Occurrences(Sel(s, e, Done));
    if HasPath(g, g[s], p) {
      PlainPathsNotLost(g, rank, bodies, rank[s], g[s], g0, g0[s], sub, before, removed, p);
      assert false;
    }
    assert BrokenAt(g, (s, e).0, (s, e).1);
    RewriteOneRewrites(g, rank, bodies, bound, s, parent, removed);
    BrokenStays(g, RewriteOne(g, rank, bound, s, parent, removed).graph, rank, bodies, wanted);
  }

  lemma LostNow(rank: Ranks, bodies: Bodies, g: Graph, bound: nat, s: Selection, sub: Expansion, before: Path,
      path: Path, parent: Path, removed: set<string>, wanted: set<(Selection, Expansion)>, p: Path)
    requires Wired(rank, g) && s in rank && rank[s] < bound && SpreadsLead(g, bodies)
    requires !s.SpreadSelection? && StandsAt(s, parent, path) && (s.FieldSelection? ==> !ShouldRemove(path, removed))
    requires var e := Rewritten(sub, before, removed); Expands(g, g[s], e) && (e.Sel? ==> (s, e) in wanted)
    requires p in Leaves(sub) && !Lost(before, p, removed) && Lost(path, p, removed)
    ensures Broken(RewriteOne(g, rank, bound, s, parent, removed).graph, wanted)
  {
    var e := Rewritten(sub, before, removed);
    RewrittenKeeps(sub, before, removed);
    KeepHas(before, Leaves(sub), removed);
    assert p in Leaves(e) && e.Sel? && g[s] != [];
    var below := RewriteAll(g, rank, rank[s], g[s], path, removed);
    RewriteAllRewrites(g, rank, bodies, rank[s], g[s], path, removed);
    StoredBack(g, rank, bodies, s, below, path, removed);
    var g' := below.graph[s := below.out];
    if HasPath(g', g'[s], p) {
      SparedIsNotLost(g', below.out, path, removed, p);
      assert false;
    }
    assert BrokenAt(g', (s, e).0, (s, e).1);
  }

  /** Main lemma, the other way: where the walk stops, the call takes a field for a leaf that is not one, or loses
      something for good. */
  lemma {:induction false} WalkBreaks(g0: Graph, rank: Ranks, bodies: Bodies, g: Graph, bound: nat,
      sels: seq<Selection>, h: Expansion, m: Met, parent: Path, removed: set<string>,
      wanted: set<(Selection, Expansion)>)
    requires Wired(rank, g0) && Wired(rank, g) && Below(rank, sels, bound) && Expands(g0, sels, h)
    requires SpreadsLead(g, bodies) && Agrees(g0, rank, g, m, removed) && Recorded(g0, rank, m, removed, wanted)
    requires Wants(wanted, Rewritten(h, parent, removed)) && Walk(m, h, parent, removed).None?
    requires TakesNoneForLeaf(g0, g, rank, bound, sels, parent, removed)
    ensures Broken(RewriteAll(g, rank, bound, sels, parent, removed).graph, wanted)
    decreases h, 0
  {
    var s := h.s;
    assert s in sels;
    WantsFirst(wanted, h, parent, removed);
    var a := RewriteOne(g, rank, bound, s, parent, removed);
    RewriteOneRewrites(g, rank, bodies, bound, s, parent, removed);
    if WalkOne(m, s, h.sub, parent, removed).None? {
      WalkOneBreaks(g0, rank, bodies, g, bound, s, h.sub, m, parent, removed, wanted);
      RewriteAllRewrites(a.graph, rank, bodies, bound, sels[1..], parent, removed);
      BrokenStays(a.graph, RewriteAll(a.graph, rank, bound, sels[1..], parent, removed).graph, rank, bodies, wanted);
    } else {
      var m1 := WalkOne(m, s, h.sub, parent, removed).value;
      WalkOneAgrees(g0, rank, g, bound, s, h.sub, m, parent, removed);
      WalkOneRecords(g0, rank, m, s, h.sub, parent, removed, wanted);
      WalkBreaks(g0, rank, bodies, a.graph, bound, sels[1..], h.rest, m1, parent, removed, wanted);
    }
  }

  lemma {:induction false} WalkOneBreaks(g0: Graph, rank: Ranks, bodies: Bodies, g: Graph, bound: nat, s: Selection,
      sub: Expansion, m: Met, parent: Path, removed: set<string>, wanted: set<(Selection, Expansion)>)
    requires Wired(rank, g0) && Wired(rank, g) && s in rank && rank[s] < bound && Expands(g0, g0[s], sub)
    requires SpreadsLead(g, bodies) && Agrees(g0, rank, g, m, removed) && Recorded(g0, rank, m, removed, wanted)
    requires Wants(wanted, RewrittenOne(s, sub, parent, removed)) && WalkOne(m, s, sub, parent, removed).None?
    requires TakesOneForNoLeaf(g0, g, rank, bound, s, parent, removed)
    ensures Broken(RewriteOne(g, rank, bound, s, parent, removed).graph, wanted)
    decreases sub, 2
  {
    match s {
      case FieldSelection(n) =>
        WalkSetBreaks(g0, rank, bodies, g, bound, s, sub, m, parent + [n.name], parent, removed, wanted);
      case InlineSelection(n) =>
        WalkSetBreaks(g0, rank, bodies, g, bound, s, sub, m, parent, parent, removed, wanted);
      case SpreadSelection(n) =>
        WalkBreaks(g0, rank, bodies, g, rank[s], g[s], sub, m, parent, removed, wanted);
    }
  }

  lemma {:induction false} WalkSetBreaks(g0: Graph, rank: Ranks, bodies: Bodies, g: Graph, bound: nat, s: Selection,
      sub: Expansion, m: Met, path: Path, parent: Path, removed: set<string>, wanted: set<(Selection, Expansion)>)
    requires Wired(rank, g0) && Wired(rank, g) && s in rank && rank[s] < bound && Expands(g0, g0[s], sub)
    requires !s.SpreadSelection? && StandsAt(s, parent, path)
    requires s.FieldSelection? ==> sub.Sel? && !ShouldRemove(path, removed)
    requires SpreadsLead(g, bodies) && Agrees(g0, rank, g, m, removed) && Recorded(g0, rank, m, removed, wanted)
    requires var e := Rewritten(sub, path, removed); e.Sel? ==> Wants(wanted, Sel(s, e, Done))
    requires WalkSet(m, s, sub, path, removed).None? && TakesOneForNoLeaf(g0, g, rank, bound, s, parent, removed)
    ensures Broken(RewriteOne(g, rank, bound, s, parent, removed).graph, wanted)
    decreases sub, 1
  {
    if s in m {
      SetBreaks(g0, rank, bodies, g, bound, s, sub, m, path, parent, removed, wanted);
    } else {
      var below := RewriteAll(g, rank, rank[s], g[s], path, removed);
      WalkBreaks(g0, rank, bodies, g, rank[s], g[s], sub, m, path, removed, wanted);
      RewriteAllRewrites(g, rank, bodies, rank[s], g[s], path, removed);
      StoredBack(g, rank, bodies, s, below, path, removed);
      BrokenStays(below.graph, below.graph[s := below.out], rank, bodies, wanted);
    }
  }
}
