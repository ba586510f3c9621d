// Selection sets as a graph: which selections each selection has below it. The nodes of a fragment are
// shared by all its spreads, so rewriting the selection set of one node changes it wherever it is spread.
module SharedGraph {
  import opened SyntaxNodes
  import opened RemovedPaths
  import Acyclicity

  type Path = seq<string>

  /** The selections right below each selection; below a spread, the body of its fragment. */
  type Graph = map<Selection, seq<Selection>>

  /** Selections get lower from fragment to spread fragment and from node to child: there is no cycle. */
  type Ranks = map<Selection, nat>

  type Bodies = map<string, seq<Selection>>

  ghost predicate Wired(rank: Ranks, g: Graph) {
    g.Keys == rank.Keys && forall s <- g :: forall t <- g[s] :: t in g && rank[t] < rank[s]
  }

  /** Storing what is there already. */
  lemma StoredAgain(g: Graph, s: Selection)
    requires s in g
    ensures g[s := g[s]] == g
  {
  }

  ghost predicate Below(rank: Ranks, sels: seq<Selection>, bound: nat) {
    forall s <- sels :: s in rank && rank[s] < bound
  }

  ghost function LinksOf(g: Graph): Acyclicity.Links<Selection> {
    map s | s in g :: set t | t in g[s]
  }

  lemma WiredIsRanked(g: Graph, rank: Ranks)
    requires forall s <- g, t <- g[s] :: t in g
    ensures Wired(rank, g) <==> Acyclicity.Ranks(LinksOf(g), rank)
  {
    assert forall s <- g, t :: t in LinksOf(g)[s] <==> t in g[s];
  }

  /** There are such ranks exactly when no selection is reached from itself. */
  lemma WiredIffAcyclic(g: Graph)
    requires forall s <- g, t <- g[s] :: t in g
    ensures Acyclicity.Acyclic(LinksOf(g)) <==> exists rank :: Wired(rank, g)
  {
    var links := LinksOf(g);
    Acyclicity.AcyclicIffRanked(links);
    if Acyclicity.Acyclic(links) {
      WiredIsRanked(g, Acyclicity.RanksOf(links));
    } else if rank :| Wired(rank, g) {
      WiredIsRanked(g, rank);
      assert false;
    }
  }

  // ------------------------------------------------------------------ field paths

  /** A field path starts at s, following at most k links. */
  ghost predicate Reaches(k: nat, g: Graph, s: Selection, path: Path) {
    && k > 0 && s in g
    && match s
       case FieldSelection(n) =>
         path != [] && path[0] == n.name && (|path| == 1 || exists t <- g[s] :: Reaches(k - 1, g, t, path[1..]))
       case _ => exists t <- g[s] :: Reaches(k - 1, g, t, path)
  }

  /** path is a field path of the selection set. */
  ghost predicate HasPath(g: Graph, sels: seq<Selection>, path: Path) {
    exists k: nat :: ReachesFrom(k, g, sels, path)
  }

  ghost predicate ReachesFrom(k: nat, g: Graph, sels: seq<Selection>, path: Path) {
    exists s <- sels :: Reaches(k, g, s, path)
  }

  lemma {:induction false} ReachesMore(k: nat, l: nat, g: Graph, s: Selection, path: Path)
    requires k <= l && Reaches(k, g, s, path)
    ensures Reaches(l, g, s, path)
  {
    if s.FieldSelection? && |path| > 1 {
      var t :| t in g[s] && Reaches(k - 1, g, t, path[1..]);
      ReachesMore(k - 1, l - 1, g, t, path[1..]);
    } else if !s.FieldSelection? {
      var t :| t in g[s] && Reaches(k - 1, g, t, path);
      ReachesMore(k - 1, l - 1, g, t, path);
    }
  }

  // ------------------------------------------------------------------ inlining

  /** t is among the selections, once at most k levels of spreads are replaced by their bodies. */
  ghost predicate From(k: nat, t: Selection, sels: seq<Selection>, bodies: Bodies)
    decreases k, 1
  {
    t in sels || (k > 0 && exists s <- sels :: FromSpread(k, t, s, bodies))
  }

  ghost predicate FromSpread(k: nat, t: Selection, s: Selection, bodies: Bodies)
    requires k > 0
    decreases k, 0
  {
    s.SpreadSelection? && s.spread.name in bodies && From(k - 1, t, bodies[s.spread.name], bodies)
  }

  ghost predicate Inlines(out: seq<Selection>, sels: seq<Selection>, bodies: Bodies) {
    forall t <- out :: exists k: nat :: From(k, t, sels, bodies)
  }

  /** The graph's spreads lead to the bodies, which never change. */
  ghost predicate SpreadsLead(g: Graph, bodies: Bodies) {
    forall s <- g :: s.SpreadSelection? ==> g[s] == if s.spread.name in bodies then bodies[s.spread.name] else []
  }

  /** From g to g', every selection set has been replaced, if at all, by one that inlines it. */
  ghost predicate Evolved(g: Graph, g': Graph, bodies: Bodies) {
    && g.Keys == g'.Keys && SpreadsLead(g, bodies) && SpreadsLead(g', bodies)
    && forall s <- g :: Inlines(g'[s], g[s], bodies)
  }

  lemma {:induction false} FromMore(k: nat, l: nat, t: Selection, sels: seq<Selection>, bodies: Bodies)
    requires k <= l && From(k, t, sels, bodies)
    ensures From(l, t, sels, bodies)
  {
    if t !in sels {
      var s :| s in sels && FromSpread(k, t, s, bodies);
      FromMore(k - 1, l - 1, t, bodies[s.spread.name], bodies);
      assert FromSpread(l, t, s, bodies);
    }
  }

  lemma InlinesItself(sels: seq<Selection>, bodies: Bodies)
    ensures Inlines(sels, sels, bodies)
  {
    forall t <- sels
      ensures From(0, t, sels, bodies)
    {
    }
  }

  /** A selection that came from another selection set, which came from a third. */
  lemma {:induction false} FromTransitive(k: nat, t: Selection, middle: seq<Selection>, l: nat, sels: seq<Selection>,
      bodies: Bodies)
    requires From(k, t, middle, bodies) && forall m <- middle :: From(l, m, sels, bodies)
    ensures From(l + k, t, sels, bodies)
  {
    if t in middle {
      FromMore(l, l + k, t, sels, bodies);
    } else {
      var s :| s in middle && FromSpread(k, t, s, bodies);
      FromBelow(l, s, sels, k, t, bodies);
    }
  }

  lemma {:induction false} FromBelow(l: nat, s: Selection, sels: seq<Selection>, k: nat, t: Selection, bodies: Bodies)
    requires From(l, s, sels, bodies) && k > 0 && FromSpread(k, t, s, bodies)
    ensures From(l + k, t, sels, bodies)
  {
    if s in sels {
      FromMore(k - 1, l + k - 1, t, bodies[s.spread.name], bodies);
      assert FromSpread(l + k, t, s, bodies);
    } else {
      var u :| u in sels && FromSpread(l, s, u, bodies);
      FromBelow(l - 1, s, bodies[u.spread.name], k, t, bodies);
      assert FromSpread(l + k, t, u, bodies);
    }
  }

  /** One bound for all members of a selection set. */
  lemma {:induction false} InlinesBound(out: seq<Selection>, sels: seq<Selection>, bodies: Bodies) returns (k: nat)
    requires Inlines(out, sels, bodies)
    ensures forall t <- out :: From(k, t, sels, bodies)
  {
    if out == [] {
      k := 0;
    } else {
      assert forall t <- out[1..] :: t in out;
      var m := InlinesBound(out[1..], sels, bodies);
      assert out[0] in out;
      var l: nat :| From(l, out[0], sels, bodies);
      k := l + m;
      forall t <- out
        ensures From(k, t, sels, bodies)
      {
        if t == out[0] {
          FromMore(l, k, t, sels, bodies);
        } else {
          FromMore(m, k, t, sels, bodies);
        }
      }
    }
  }

  lemma InlinesTransitive(out: seq<Selection>, middle: seq<Selection>, sels: seq<Selection>, bodies: Bodies)
    requires Inlines(out, middle, bodies) && Inlines(middle, sels, bodies)
    ensures Inlines(out, sels, bodies)
  {
    var l := InlinesBound(middle, sels, bodies);
    forall t <- out
      ensures exists k: nat :: From(k, t, sels, bodies)
    {
      var k: nat :| From(k, t, middle, bodies);
      FromTransitive(k, t, middle, l, sels, bodies);
    }
  }

  lemma EvolvedTransitive(g: Graph, g': Graph, g'': Graph, bodies: Bodies)
    requires Evolved(g, g', bodies) && Evolved(g', g'', bodies)
    ensures Evolved(g, g'', bodies)
  {
    forall s <- g
      ensures Inlines(g''[s], g[s], bodies)
    {
      InlinesTransitive(g''[s], g'[s], g[s], bodies);
    }
  }

  // ------------------------------------------------------------------ evolving only loses paths

  /** What is reached from an inlined selection was reached from the selection set. */
  lemma {:induction false} ReachesThrough(l: nat, t: Selection, sels: seq<Selection>, k: nat, g: Graph, bodies: Bodies,
      path: Path)
    returns (m: nat)
    requires From(l, t, sels, bodies) && Reaches(k, g, t, path) && SpreadsLead(g, bodies) && forall s <- sels :: s in g
    requires forall s <- g :: forall u <- g[s] :: u in g
    ensures ReachesFrom(m, g, sels, path)
  {
    if t in sels {
      m := k;
    } else {
      var s :| s in sels && FromSpread(l, t, s, bodies);
      var n := ReachesThrough(l - 1, t, g[s], k, g, bodies, path);
      m := n + 1;
      assert Reaches(m, g, s, path);
    }
  }

  /** Evolving never adds a field path, at any node. */
  lemma {:induction false} PathsShrink(k: nat, g: Graph, g': Graph, rank: Ranks, bodies: Bodies, s: Selection,
      path: Path)
    returns (m: nat)
    requires Wired(rank, g) && Evolved(g, g', bodies) && Reaches(k, g', s, path)
    ensures Reaches(m, g, s, path)
    decreases k
  {
    if s.FieldSelection? && |path| == 1 {
      m := 1;
    } else {
      var rest := if s.FieldSelection? then path[1..] else path;
      var t :| t in g'[s] && Reaches(k - 1, g', t, rest);
      var n := PathsShrink(k - 1, g, g', rank, bodies, t, rest);
      var l: nat :| From(l, t, g[s], bodies);
      var p := ReachesThrough(l, t, g[s], n, g, bodies, rest);
      m := p + 1;
      assert Reaches(m, g, s, path);
    }
  }

  // ------------------------------------------------------------------ what a selection set must not hold

  /** No field path of the selection set, standing at `parent`, is removed. */
  ghost predicate Spared(g: Graph, sels: seq<Selection>, parent: Path, removed: set<string>) {
    forall k: nat, s, path :: s in sels && Reaches(k, g, s, path) ==> !ShouldRemove(parent + path, removed)
  }

  /** No spread is left in or below the selection set. */
  ghost predicate SpreadFree(k: nat, g: Graph, sels: seq<Selection>) {
    forall s <- sels :: !s.SpreadSelection? && (k > 0 && s in g ==> SpreadFree(k - 1, g, g[s]))
  }

  ghost predicate AllInlined(g: Graph, sels: seq<Selection>) {
    forall k: nat :: SpreadFree(k, g, sels)
  }

  lemma SparedStays(g: Graph, g': Graph, rank: Ranks, bodies: Bodies, sels: seq<Selection>, parent: Path,
      removed: set<string>)
    requires Wired(rank, g) && Evolved(g, g', bodies) && Spared(g, sels, parent, removed)
    ensures Spared(g', sels, parent, removed)
  {
    forall k: nat, s, path | s in sels && Reaches(k, g', s, path)
      ensures !ShouldRemove(parent + path, removed)
    {
      var m := PathsShrink(k, g, g', rank, bodies, s, path);
    }
  }

  lemma {:induction false} FromSpreadFree(l: nat, t: Selection, sels: seq<Selection>, bodies: Bodies)
    requires From(l, t, sels, bodies) && forall s <- sels :: !s.SpreadSelection?
    ensures t in sels
  {
  }

  lemma {:induction false} SpreadFreeStays(k: nat, g: Graph, g': Graph, bodies: Bodies, sels: seq<Selection>)
    requires Evolved(g, g', bodies) && SpreadFree(k, g, sels)
    ensures SpreadFree(k, g', sels)
  {
    if k > 0 {
      forall s <- sels | s in g'
        ensures SpreadFree(k - 1, g', g'[s])
      {
        SpreadFreeStays(k - 1, g, g', bodies, g[s]);
        forall t <- g'[s]
          ensures t in g[s]
        {
          var l: nat :| From(l, t, g[s], bodies);
          assert SpreadFree(k - 1, g, g[s]);
          FromSpreadFree(l, t, g[s], bodies);
        }
      }
    }
  }
}
