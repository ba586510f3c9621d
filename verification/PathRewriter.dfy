// The inlining rewriter: fields at removed paths are dropped, spreads are replaced by the bodies they name, and
// the nodes of those bodies are rewritten where they are, once for every spread that leads to them.
module PathRewriter {
  import opened SyntaxNodes
  import opened RemovedPaths
  import opened SharedGraph
  import opened ExpandedShape

  datatype Rewriting = Rewriting(graph: Graph, out: seq<Selection>)

  lemma StoredWired(g: Graph, rank: Ranks, s: Selection, kids: seq<Selection>)
    requires Wired(rank, g) && s in g && Below(rank, kids, rank[s])
    ensures Wired(rank, g[s := kids])
  {
  }

  /** rewriteSelectionSet on the graph: each selection is rewritten in the graph the ones before it left. */
  ghost function RewriteAll(g: Graph, rank: Ranks, bound: nat, sels: seq<Selection>, parent: Path,
      removed: set<string>): (r: Rewriting)
    requires Wired(rank, g) && Below(rank, sels, bound)
    ensures Wired(rank, r.graph) && Below(rank, r.out, bound)
    decreases bound, 1, |sels|
  {
    if sels == [] then Rewriting(g, [])
    else
      assert sels[0] in sels;
      var first := RewriteOne(g, rank, bound, sels[0], parent, removed);
      var rest := RewriteAll(first.graph, rank, bound, sels[1..], parent, removed);
      Rewriting(rest.graph, first.out + rest.out)
  }

  ghost function RewriteOne(g: Graph, rank: Ranks, bound: nat, s: Selection, parent: Path,
      removed: set<string>): (r: Rewriting)
    requires Wired(rank, g) && s in rank && rank[s] < bound
    ensures Wired(rank, r.graph) && Below(rank, r.out, bound)
    decreases bound, 0
  {
    match s
    case FieldSelection(n) =>
      if ShouldRemove(parent + [n.name], removed) then Rewriting(g, [])
      else if g[s] == [] then Rewriting(g, [s])
      else
        var below := RewriteAll(g, rank, rank[s], g[s], parent + [n.name], removed);
        StoredWired(below.graph, rank, s, below.out);
        Rewriting(below.graph[s := below.out], if below.out == [] then [] else [s])
    case InlineSelection(n) =>
      var below := RewriteAll(g, rank, rank[s], g[s], parent, removed);
      StoredWired(below.graph, rank, s, below.out);
      Rewriting(below.graph[s := below.out], if below.out == [] then [] else [s])
    case SpreadSelection(n) =>
      RewriteAll(g, rank, rank[s], g[s], parent, removed)
  }

  // ------------------------------------------------------------------ whatever is shared

  ghost predicate SameAbove(rank: Ranks, g: Graph, g': Graph, bound: nat) {
    forall s <- g :: s in rank && s in g' && rank[s] >= bound ==> g'[s] == g[s]
  }

  /** Rewriting the selections turned g into g' and gave out: nothing was added anywhere, and out holds neither
      a removed path nor a spread. */
  ghost predicate Rewrites(g: Graph, rank: Ranks, bodies: Bodies, bound: nat, sels: seq<Selection>, parent: Path,
                           removed: set<string>, r: Rewriting)
  {
    var held :=
      && Wired(rank, g) && Wired(rank, r.graph) && Evolved(g, r.graph, bodies) && SameAbove(rank, g, r.graph, bound)
      && Inlines(r.out, sels, bodies) && Spared(r.graph, r.out, parent, removed) && AllInlined(r.graph, r.out);
    held
  }

  lemma Unchanged(g: Graph, rank: Ranks, bodies: Bodies, bound: nat, sels: seq<Selection>, parent: Path,
      removed: set<string>)
    requires Wired(rank, g) && SpreadsLead(g, bodies)
    ensures Evolved(g, g, bodies)
    ensures Rewrites(g, rank, bodies, bound, sels, parent, removed, Rewriting(g, []))
  {
    forall s <- g
      ensures Inlines(g[s], g[s], bodies)
    {
      InlinesItself(g[s], bodies);
    }
  }

  lemma FromWider(k: nat, t: Selection, sels: seq<Selection>, wider: seq<Selection>, bodies: Bodies)
    requires From(k, t, sels, bodies) && forall s <- sels :: s in wider
    ensures From(k, t, wider, bodies)
  {
    if t !in sels {
      var s :| s in sels && FromSpread(k, t, s, bodies);
      assert s in wider;
    }
  }

  lemma InlinesAppend(out: seq<Selection>, sels: seq<Selection>, out': seq<Selection>, sels': seq<Selection>,
      bodies: Bodies)
    requires Inlines(out, sels, bodies) && Inlines(out', sels', bodies)
    ensures Inlines(out + out', sels + sels', bodies)
  {
    forall t <- out + out'
      ensures exists k: nat :: From(k, t, sels + sels', bodies)
    {
      if t in out {
        var k: nat :| From(k, t, sels, bodies);
        FromWider(k, t, sels, sels + sels', bodies);
      } else {
        var k: nat :| From(k, t, sels', bodies);
        FromWider(k, t, sels', sels + sels', bodies);
      }
    }
  }

  /** Two rewritings in a row: what the first gave stays spared while the second goes on. */
  lemma RewritesNext(g: Graph, rank: Ranks, bodies: Bodies, bound: nat, sels: seq<Selection>, a: Rewriting,
                     sels': seq<Selection>, b: Rewriting, parent: Path, removed: set<string>)
    requires Rewrites(g, rank, bodies, bound, sels, parent, removed, a)
    requires Rewrites(a.graph, rank, bodies, bound, sels', parent, removed, b)
    ensures Rewrites(g, rank, bodies, bound, sels + sels', parent, removed, Rewriting(b.graph, a.out + b.out))
  {
    EvolvedTransitive(g, a.graph, b.graph, bodies);
    InlinesAppend(a.out, sels, b.out, sels', bodies);
    SparedStays(a.graph, b.graph, rank, bodies, a.out, parent, removed);
    forall k: nat
      ensures SpreadFree(k, b.graph, a.out + b.out)
    {
      SpreadFreeStays(k, a.graph, b.graph, bodies, a.out);
      assert SpreadFree(k, b.graph, b.out);
    }
  }

  /** Storing a rewritten selection set back at its own node. */
  lemma StoredBack(g: Graph, rank: Ranks, bodies: Bodies, s: Selection, below: Rewriting, path: Path,
      removed: set<string>)
    requires s in rank && s in g && s in below.graph && !s.SpreadSelection? && Below(rank, below.out, rank[s])
    requires Rewrites(g, rank, bodies, rank[s], g[s], path, removed, below)
    ensures var g' := below.graph[s := below.out];
      && Wired(rank, g') && Evolved(g, g', bodies) && Evolved(below.graph, g', bodies)
      && Spared(g', below.out, path, removed) && AllInlined(g', below.out)
  {
    var g' := below.graph[s := below.out];
    assert below.graph[s] == g[s];
    forall t <- below.graph
      ensures Inlines(g'[t], below.graph[t], bodies)
    {
      InlinesItself(below.graph[t], bodies);
    }
    assert Evolved(below.graph, g', bodies);
    EvolvedTransitive(g, below.graph, g', bodies);
    SparedStays(below.graph, g', rank, bodies, below.out, path, removed);
    forall k: nat
      ensures SpreadFree(k, g', below.out)
    {
      SpreadFreeStays(k, below.graph, g', bodies, below.out);
    }
  }

  lemma KeptAlone(g: Graph, s: Selection, kids: seq<Selection>)
    requires s in g && g[s] == kids && !s.SpreadSelection? && AllInlined(g, kids)
    ensures AllInlined(g, [s])
  {
    forall k: nat
      ensures SpreadFree(k, g, [s])
    {
      if k > 0 {
        assert SpreadFree(k - 1, g, kids);
      }
    }
  }

  /** A field that stays, with what is below it. */
  lemma FieldSpared(g: Graph, n: FieldNode, kids: seq<Selection>, parent: Path, removed: set<string>)
    requires FieldSelection(n) in g && g[FieldSelection(n)] == kids
    requires Spared(g, kids, parent + [n.name], removed) && !ShouldRemove(parent + [n.name], removed)
    ensures Spared(g, [FieldSelection(n)], parent, removed)
  {
    var s := FieldSelection(n);
    forall k: nat, path | Reaches(k, g, s, path)
      ensures !ShouldRemove(parent + path, removed)
    {
      if |path| == 1 {
        assert path == [n.name];
      } else {
        var t :| t in kids && Reaches(k - 1, g, t, path[1..]);
        assert parent + [n.name] + path[1..] == parent + path;
      }
    }
  }

  lemma InlineSpared(g: Graph, n: InlineNode, kids: seq<Selection>, parent: Path, removed: set<string>)
    requires InlineSelection(n) in g && g[InlineSelection(n)] == kids && Spared(g, kids, parent, removed)
    ensures Spared(g, [InlineSelection(n)], parent, removed)
  {
    var s := InlineSelection(n);
    forall k: nat, path | Reaches(k, g, s, path)
      ensures !ShouldRemove(parent + path, removed)
    {
      var t :| t in kids && Reaches(k - 1, g, t, path);
    }
  }

  lemma SpreadInlined(s: Selection, out: seq<Selection>, bodies: Bodies)
    requires s.SpreadSelection? && s.spread.name in bodies && Inlines(out, bodies[s.spread.name], bodies)
    ensures Inlines(out, [s], bodies)
  {
    forall t <- out
      ensures exists k: nat :: From(k, t, [s], bodies)
    {
      var k: nat :| From(k, t, bodies[s.spread.name], bodies);
      assert FromSpread(k + 1, t, s, bodies);
      assert From(k + 1, t, [s], bodies);
    }
  }

  /** A field whose selection set was rewritten. */
  lemma FieldRewrites(g: Graph, rank: Ranks, bodies: Bodies, bound: nat, n: FieldNode, below: Rewriting, parent: Path,
      removed: set<string>)
    requires var s := FieldSelection(n);
      && s in rank && rank[s] < bound && s in g && Below(rank, below.out, rank[s])
      && Rewrites(g, rank, bodies, rank[s], g[s], parent + [n.name], removed, below)
    requires !ShouldRemove(parent + [n.name], removed)
    ensures var s := FieldSelection(n);
      Rewrites(g, rank, bodies, bound, [s], parent, removed,
        Rewriting(below.graph[s := below.out], if below.out == [] then [] else [s]))
  {
    var s := FieldSelection(n);
    var g' := below.graph[s := below.out];
    StoredBack(g, rank, bodies, s, below, parent + [n.name], removed);
    InlinesItself([s], bodies);
    FieldSpared(g', n, below.out, parent, removed);
    KeptAlone(g', s, below.out);
  }

  lemma InlineRewrites(g: Graph, rank: Ranks, bodies: Bodies, bound: nat, n: InlineNode, below: Rewriting, parent: Path,
      removed: set<string>)
    requires var s := InlineSelection(n);
      && s in rank && rank[s] < bound && s in g && Below(rank, below.out, rank[s])
      && Rewrites(g, rank, bodies, rank[s], g[s], parent, removed, below)
    ensures var s := InlineSelection(n);
      Rewrites(g, rank, bodies, bound, [s], parent, removed,
        Rewriting(below.graph[s := below.out], if below.out == [] then [] else [s]))
  {
    var s := InlineSelection(n);
    var g' := below.graph[s := below.out];
    StoredBack(g, rank, bodies, s, below, parent, removed);
    InlinesItself([s], bodies);
    InlineSpared(g', n, below.out, parent, removed);
    KeptAlone(g', s, below.out);
  }

  /** Main lemma, for any sharing. */
  lemma {:induction false} RewriteAllRewrites(g: Graph, rank: Ranks, bodies: Bodies, bound: nat, sels: seq<Selection>,
                                              parent: Path, removed: set<string>)
    requires Wired(rank, g) && Below(rank, sels, bound) && SpreadsLead(g, bodies)
    ensures Rewrites(g, rank, bodies, bound, sels, parent, removed, RewriteAll(g, rank, bound, sels, parent, removed))
    decreases bound, 1, |sels|
  {
    if sels == [] {
      Unchanged(g, rank, bodies, bound, sels, parent, removed);
    } else {
      var s := sels[0];
      assert s in sels;
      var first := RewriteOne(g, rank, bound, s, parent, removed);
      RewriteOneRewrites(g, rank, bodies, bound, s, parent, removed);
      RewriteAllRewrites(first.graph, rank, bodies, bound, sels[1..], parent, removed);
      var rest := RewriteAll(first.graph, rank, bound, sels[1..], parent, removed);
      RewritesNext(g, rank, bodies, bound, [s], first, sels[1..], rest, parent, removed);
      HeadAndTail(sels);
    }
  }

  lemma {:induction false} RewriteOneRewrites(g: Graph, rank: Ranks, bodies: Bodies, bound: nat, s: Selection,
                                              parent: Path, removed: set<string>)
    requires Wired(rank, g) && s in rank && rank[s] < bound && SpreadsLead(g, bodies)
    ensures Rewrites(g, rank, bodies, bound, [s], parent, removed, RewriteOne(g, rank, bound, s, parent, removed))
    decreases bound, 0
  {
    Unchanged(g, rank, bodies, bound, [s], parent, removed);
    InlinesItself([s], bodies);
    match s {
      case FieldSelection(n) =>
        var path := parent + [n.name];
        if !ShouldRemove(path, removed) {
          if g[s] == [] {
            FieldSpared(g, n, [], parent, removed);
            KeptAlone(g, s, []);
          } else {
            RewriteAllRewrites(g, rank, bodies, rank[s], g[s], path, removed);
            FieldRewrites(g, rank, bodies, bound, n, RewriteAll(g, rank, rank[s], g[s], path, removed), parent,
                removed);
          }
        }
      case InlineSelection(n) =>
        RewriteAllRewrites(g, rank, bodies, rank[s], g[s], parent, removed);
        InlineRewrites(g, rank, bodies, bound, n, RewriteAll(g, rank, rank[s], g[s], parent, removed), parent, removed);
      case SpreadSelection(n) =>
        RewriteAllRewrites(g, rank, bodies, rank[s], g[s], parent, removed);
        var r := RewriteAll(g, rank, rank[s], g[s], parent, removed);
        if n.name in bodies {
          SpreadInlined(s, r.out, bodies);
        }
    }
  }
}
